/** How the client and the server fit together: the month the calendar
    shows is loaded with a `from`/`to` range, and the listing's text
    comparison must keep every stay the calendar paints in that month. */
module Sync {
  import opened Wrappers
  import opened Strings
  import opened Values
  import opened Dates
  import opened Store
  import opened Calendar
  import opened Api

  /** A stay the calendar paints on a day of the visible month is one the
      listing for that month returns: the painted day lies between the
      range's bounds, so the stay meets the range. */
  lemma PaintedIsListed(row: Row, r: Reservation, year: int, month0: int, d: nat)
    requires row.checkin == Some(r.checkin) && row.checkout == Some(r.checkout)
    requires 0 <= month0 <= 11 && 1000 <= JsYear(year) <= 9999
    requires 1 <= d <= DaysInMonth(JsYear(year), month0 + 1)
    requires Occupies(r, CellDate(year, month0, d))
    ensures InRange(row, MonthRange(year, month0).0, MonthRange(year, month0).1)
  {
    var (from, to) := MonthRange(year, month0);
    var iso := CellDate(year, month0, d);
    CellWithinRange(year, month0, d);
    LexLeTrans(r.checkin, iso, to);
    LexLeTrans(from, iso, r.checkout);
    InRangeIff(row, from, to);
  }

  /** After a successful check-in the record the client receives is
      painted green and offers the checkout button instead of the check-in
      button. */
  lemma CheckinSwitchesButtons(table: seq<Row>, id: int, rec: Record, r: Reservation)
    requires UniqueIds(table)
    requires Checkin(table, id).response == Response(200, One(rec))
    requires Str(r.status) == rec.status
    ensures BarColour(r) == Green
    ensures ShowCheckoutButton(r.status) && !ShowCheckinButton(r.status)
  {
    SetStatusSpec(table, id, "checkin");
    var i :| 0 <= i < |table| && table[i].id == id
             && Checkin(table, id).response.body == One(ToRecord(WithStatus(table[i], "checkin")));
  }

  // ---------------------------------------------------------------------
  // Finding: strptime lets unpadded dates through
  // ---------------------------------------------------------------------

  /** The first day and the last day written by `formatDateISO` for a month
      of a four-digit year: a full-date whose month starts with 0 or 1. */
  lemma MonthBound(d: Date)
    requires Valid(d) && 1000 <= d.year <= 9999
    ensures FullDateShape(FormatDateISO(d))
    ensures Val(FormatDateISO(d)[..4]) == d.year
    ensures FormatDateISO(d)[5] <= '1'
  {
    var s := FormatDateISO(d);
    FormatDateISOShape(d);
    var mm := s[5..7];
    assert Val(mm) == 10 * DigitValue(s[5]) + DigitValue(s[6]) by {
      assert mm[..1] == [s[5]];
      assert Val(mm[..1]) == DigitValue(s[5]);
    }
  }

  /** The year of the unpadded date. */
  lemma UnpaddedYear(c: string)
    requires c == "2024-5-1"
    ensures AllDigits(c[..4]) && Val(c[..4]) == 2024
  {
    assert c[..4] == "2024";
    assert "2024"[..3] == "202" && "202"[..2] == "20" && "20"[..1] == "2";
  }

  /** "2024-5-1" does not lie between the bounds of any one month: for an
      earlier year it sorts after the month's last day, for a later year
      before its first day, and in 2024 the '5' sorts after the leading
      '0' or '1' of every two-digit month. */
  lemma UnpaddedOutsideMonth(c: string, from: string, to: string)
    requires c == "2024-5-1"
    requires FullDateShape(from) && FullDateShape(to) && Val(from[..4]) == Val(to[..4]) && to[5] <= '1'
    ensures !(LexLe(c, to) && LexLe(from, c))
  {
    UnpaddedYear(c);
    var y := c[..4];
    assert c == y + c[4..] && to == to[..4] + to[4..] && from == from[..4] + from[4..];
    LexLeAppend(y, to[..4], c[4..], to[4..]);
    LexLeAppend(from[..4], y, from[4..], c[4..]);
    LexLeDigits(y, to[..4]);
    LexLeDigits(from[..4], y);
    if y == to[..4] {
      var a, b := c[4..], to[4..];
      assert a[0] == b[0] == '-';
      assert a[1] == '5' && b[1] == to[5];
      assert !LexLe(a[1..], b[1..]);
    }
  }

  /** As app.py:128-129 write it, create accepts the one-day stay
      "2024-5-1" (strptime reads it as the 1st of May 2024) and stores it,
      but the stored row is not in the listing of any month the calendar
      loads, so the reservation never appears on the calendar. */
  lemma UnpaddedStayNeverListed(table: seq<Row>, nextId: int, p: Payload, c: string, year: int, month0: int)
    requires UniqueIds(table) && forall row :: row in table ==> row.id < nextId
    requires c == "2024-5-1" && p == map["checkin" := Str(c), "checkout" := Str(c)]
    requires 0 <= month0 <= 11 && 1000 <= JsYear(year) <= 9999
    ensures Strptime(c) == Some(Date(2024, 5, 1))
    ensures var out := CreateReservation(table, nextId, p);
            var range := MonthRange(year, month0);
            && out.response.code == 201
            && |out.table| == |table| + 1
            && out.table[|table|] !in ListRows(out.table, Some(range.0), Some(range.1))
  {
    UnpaddedStayCreated(table, nextId, p, c);
    var out := CreateReservation(table, nextId, p);
    var row := out.table[|table|];
    var y := JsYear(year);
    var first := Date(y, month0 + 1, 1);
    var last := Date(y, month0 + 1, DaysInMonth(y, month0 + 1));
    var (from, to) := MonthRange(year, month0);
    MonthBound(first);
    MonthBound(last);
    UnpaddedOutsideMonth(c, from, to);
    assert !StayMeets(row, from, to);
    assert from != "" && to != "";
    ListSpec(out.table, from, to);
  }

  /** Create accepts the stay `"2024-5-1"` to `"2024-5-1"` and stores the
      dates as sent. */
  lemma UnpaddedStayCreated(table: seq<Row>, nextId: int, p: Payload, c: string)
    requires UniqueIds(table) && forall row :: row in table ==> row.id < nextId
    requires c == "2024-5-1" && p == map["checkin" := Str(c), "checkout" := Str(c)]
    ensures Strptime(c) == Some(Date(2024, 5, 1))
    ensures var out := CreateReservation(table, nextId, p);
            && out.response.code == 201
            && |out.table| == |table| + 1
            && out.table[|table|].checkin == Some(c) && out.table[|table|].checkout == Some(c)
  {
    StrptimeAcceptsShortFields();
    assert "chale" !in p && "pessoas" !in p && "nome" !in p && "observacoes" !in p && "whatsapp" !in p;
    assert Trim("") == "";
    assert Converted(p);
    assert DatesAccepted(Str(c), Str(c), PyStrptime);
    CreateSpec(table, nextId, p, PyStrptime);
  }

  /** A row whose dates are full-dates meets a month's range exactly when
      the stay overlaps the month in calendar order. */
  lemma FullDateStayMeetsMonth(row: Row, year: int, month0: int)
    requires row.checkin.Some? && FullDateShape(row.checkin.value)
    requires row.checkout.Some? && FullDateShape(row.checkout.value)
    requires 0 <= month0 <= 11 && 1000 <= JsYear(year) <= 9999
    ensures var y := JsYear(year);
            var range := MonthRange(year, month0);
            (StayMeets(row, range.0, range.1)
             <==> (!Before(Date(y, month0 + 1, DaysInMonth(y, month0 + 1)), Fields(row.checkin.value))
                   && !Before(Fields(row.checkout.value), Date(y, month0 + 1, 1))))
  {
    var y := JsYear(year);
    var first := Date(y, month0 + 1, 1);
    var last := Date(y, month0 + 1, DaysInMonth(y, month0 + 1));
    FormatDateISOShape(first);
    FormatDateISOShape(last);
    FullDateOrder(row.checkin.value, FormatDateISO(last));
    FullDateOrder(FormatDateISO(first), row.checkout.value);
  }

  /** With the dates parsed as full-dates, every stored stay is listed for a
      month exactly when it overlaps that month in calendar order: it starts
      no later than the month's last day and ends no earlier than its first. */
  lemma CheckedStayListed(table: seq<Row>, nextId: int, p: Payload, year: int, month0: int)
    requires UniqueIds(table) && forall row :: row in table ==> row.id < nextId
    requires 0 <= month0 <= 11 && 1000 <= JsYear(year) <= 9999
    ensures var out := CreateReservationChecked(table, nextId, p);
            var y := JsYear(year);
            var range := MonthRange(year, month0);
            out.response.code == 201 ==>
              && |out.table| == |table| + 1
              && var row := out.table[|table|];
                 && row.checkin.Some? && IsFullDate(row.checkin.value)
                 && row.checkout.Some? && IsFullDate(row.checkout.value)
                 && (row in ListRows(out.table, Some(range.0), Some(range.1))
                     <==> !Before(Date(y, month0 + 1, DaysInMonth(y, month0 + 1)), Fields(row.checkin.value))
                          && !Before(Fields(row.checkout.value), Date(y, month0 + 1, 1)))
  {
    var out := CreateReservationChecked(table, nextId, p);
    CreateSpec(table, nextId, p, FullDate);
    if out.response.code == 201 {
      var row := out.table[|table|];
      var (from, to) := MonthRange(year, month0);
      assert from != "" && to != "" by {
        FormatDateISOShape(Date(JsYear(year), month0 + 1, 1));
        FormatDateISOShape(Date(JsYear(year), month0 + 1, DaysInMonth(JsYear(year), month0 + 1)));
      }
      ListSpec(out.table, from, to);
      FullDateStayMeetsMonth(row, year, month0);
    }
  }
}
