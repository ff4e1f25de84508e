/** The month calendar of the client (static/script.js): which reservations
    a day shows, in what order and colour, what a click on a day opens, the
    visible-month state and its navigation, the defaults of a new
    reservation and the date check made before saving. */
module Calendar {
  import opened Wrappers
  import opened Strings
  import opened Dates

  /** A reservation as the client holds it after loading the month. */
  datatype Reservation = Reservation(
    id: int, chale: int, nome: string, checkin: string, checkout: string,
    observacoes: string, status: string)

  // ---------------------------------------------------------------------
  // Occupancy
  // ---------------------------------------------------------------------

  /** `r.checkin <= iso && r.checkout >= iso`, JavaScript string comparison:
      the stay includes both its first and its last day. */
  predicate Occupies(r: Reservation, iso: string) {
    LexLe(r.checkin, iso) && LexLe(iso, r.checkout)
  }

  /** `reservations.filter(...)`: the reservations occupying the day, in
      the order they were loaded. */
  function Matches(rs: seq<Reservation>, iso: string): (m: seq<Reservation>)
    ensures |m| <= |rs|
    ensures forall r :: r in m <==> r in rs && Occupies(r, iso)
    ensures forall r :: r in m ==> multiset(m)[r] == multiset(rs)[r]
  {
    if rs == [] then []
    else
      assert rs == [rs[0]] + rs[1..];
      (if Occupies(rs[0], iso) then [rs[0]] else []) + Matches(rs[1..], iso)
  }

  /** The filter keeps the loaded order: the matches of a concatenation are
      the matches of its parts, one after the other. */
  lemma {:induction false} MatchesAppend(a: seq<Reservation>, b: seq<Reservation>, iso: string)
    ensures Matches(a + b, iso) == Matches(a, iso) + Matches(b, iso)
    decreases |a|
  {
    if a == [] {
      assert a + b == b;
    } else {
      assert (a + b)[0] == a[0];
      assert (a + b)[1..] == a[1..] + b;
      MatchesAppend(a[1..], b, iso);
    }
  }

  /** With full-date strings the string test is the calendar test: the day
      lies between check-in and check-out, both included. */
  lemma OccupiesChronologically(r: Reservation, iso: string)
    requires FullDateShape(r.checkin) && FullDateShape(r.checkout) && FullDateShape(iso)
    ensures Occupies(r, iso)
        <==> !Before(Fields(iso), Fields(r.checkin)) && !Before(Fields(r.checkout), Fields(iso))
  {
    FullDateOrder(r.checkin, iso);
    FullDateOrder(iso, r.checkout);
  }

  // ---------------------------------------------------------------------
  // Bars: order, colour and label
  // ---------------------------------------------------------------------

  predicate SortedByChale(s: seq<Reservation>) {
    forall i, j :: 0 <= i < j < |s| ==> s[i].chale <= s[j].chale
  }

  /** Insert x ahead of the first element whose cabin is not lower. */
  function InsertByChale(x: Reservation, s: seq<Reservation>): seq<Reservation> {
    if s == [] || x.chale <= s[0].chale then [x] + s
    else [s[0]] + InsertByChale(x, s[1..])
  }

  /** `occ.sort((a, b) => a.chale - b.chale)`: insertion from the back. */
  function SortByChale(s: seq<Reservation>): seq<Reservation> {
    if s == [] then [] else InsertByChale(s[0], SortByChale(s[1..]))
  }

  /** Inserting a reservation whose cabin is at least `c` into a list whose
      cabins are all at least `c` keeps that lower bound. */
  lemma {:induction false} InsertByChaleBound(c: int, x: Reservation, s: seq<Reservation>)
    requires c <= x.chale && forall i :: 0 <= i < |s| ==> c <= s[i].chale
    ensures forall i :: 0 <= i < |InsertByChale(x, s)| ==> c <= InsertByChale(x, s)[i].chale
  {
    if s != [] && s[0].chale < x.chale {
      InsertByChaleBound(c, x, s[1..]);
    }
  }

  /** A reservation placed before a sorted list with cabins at least its
      own keeps the list sorted. */
  lemma ConsSorted(h: Reservation, t: seq<Reservation>)
    requires SortedByChale(t) && forall i :: 0 <= i < |t| ==> h.chale <= t[i].chale
    ensures SortedByChale([h] + t)
  {
    var u := [h] + t;
    forall i, j | 0 <= i < j < |u| ensures u[i].chale <= u[j].chale {
      assert u[j] == t[j - 1];
      if i > 0 {
        assert u[i] == t[i - 1];
      }
    }
  }

  lemma {:induction false} InsertByChaleSorted(x: Reservation, s: seq<Reservation>)
    requires SortedByChale(s)
    ensures SortedByChale(InsertByChale(x, s))
  {
    if s != [] {
      if s[0].chale < x.chale {
        var t := InsertByChale(x, s[1..]);
        assert InsertByChale(x, s) == [s[0]] + t;
        InsertByChaleSorted(x, s[1..]);
        InsertByChaleBound(s[0].chale, x, s[1..]);
        ConsSorted(s[0], t);
      } else {
        ConsSorted(x, s);
      }
    }
  }

  lemma {:induction false} InsertByChalePerm(x: Reservation, s: seq<Reservation>)
    ensures multiset(InsertByChale(x, s)) == multiset(s) + multiset{x}
  {
    if s != [] && s[0].chale < x.chale {
      assert s == [s[0]] + s[1..];
      InsertByChalePerm(x, s[1..]);
    }
  }

  /** Inserting into a sorted list keeps it sorted and adds exactly the one
      reservation. */
  lemma InsertByChaleSpec(x: Reservation, s: seq<Reservation>)
    requires SortedByChale(s)
    ensures SortedByChale(InsertByChale(x, s))
    ensures multiset(InsertByChale(x, s)) == multiset(s) + multiset{x}
  {
    InsertByChaleSorted(x, s);
    InsertByChalePerm(x, s);
  }

  /** The reservations of one cabin, in their order. */
  function OfCabin(s: seq<Reservation>, c: int): seq<Reservation> {
    if s == [] then [] else (if s[0].chale == c then [s[0]] else []) + OfCabin(s[1..], c)
  }

  /** Insertion puts x ahead of the reservations of its own cabin. */
  lemma {:induction false} InsertByChaleOfCabin(x: Reservation, s: seq<Reservation>, c: int)
    ensures OfCabin(InsertByChale(x, s), c) == (if x.chale == c then [x] else []) + OfCabin(s, c)
  {
    var mine := if x.chale == c then [x] else [];
    if s == [] || x.chale <= s[0].chale {
      var u := [x] + s;
      assert u[0] == x && u[1..] == s;
      assert OfCabin(u, c) == mine + OfCabin(s, c);
    } else {
      var rest := InsertByChale(x, s[1..]);
      var u := [s[0]] + rest;
      var head := if s[0].chale == c then [s[0]] else [];
      assert u[0] == s[0] && u[1..] == rest;
      assert OfCabin(u, c) == head + OfCabin(rest, c);
      InsertByChaleOfCabin(x, s[1..], c);
      assert OfCabin(s, c) == head + OfCabin(s[1..], c);
      assert head == [] || mine == [];
    }
  }

  /** The cabin sort is stable, as JavaScript's `Array.prototype.sort` is:
      the bars of one cabin keep the order the reservations were loaded in. */
  lemma {:induction false} SortByChaleStable(s: seq<Reservation>, c: int)
    ensures OfCabin(SortByChale(s), c) == OfCabin(s, c)
  {
    if s != [] {
      SortByChaleStable(s[1..], c);
      InsertByChaleOfCabin(s[0], SortByChale(s[1..]), c);
    }
  }

  /** The sorted list is ordered by cabin and holds the same reservations
      the same number of times. */
  lemma {:induction false} SortByChaleSpec(s: seq<Reservation>)
    ensures SortedByChale(SortByChale(s))
    ensures multiset(SortByChale(s)) == multiset(s)
  {
    if s != [] {
      assert s == [s[0]] + s[1..];
      SortByChaleSpec(s[1..]);
      InsertByChaleSpec(s[0], SortByChale(s[1..]));
    }
  }

  datatype Colour = Green | Note | Blue

  /** The bar's class: checked-in guests first, then stays with a note. */
  function BarColour(r: Reservation): (c: Colour)
    ensures c == Green <==> r.status == "checkin"
  {
    if r.status == "checkin" then Green
    else if r.observacoes != "" && |Trim(r.observacoes)| > 0 then Note
    else Blue
  }

  /** Exactly one colour, by priority: green iff checked in; otherwise note
      iff the observations hold a non-blank character; otherwise blue. */
  lemma BarColourRule(r: Reservation)
    ensures BarColour(r) == Green <==> r.status == "checkin"
    ensures BarColour(r) == Note <==> r.status != "checkin" && !AllSpace(r.observacoes)
    ensures BarColour(r) == Blue <==> r.status != "checkin" && AllSpace(r.observacoes)
  {
    TrimEmptyIff(r.observacoes);
  }

  /** `C${r.chale} • ${r.nome || '—'}` */
  function Label(r: Reservation): (t: string)
    ensures |t| >= 4 + |r.nome| && t[..1] == "C"
    ensures r.nome != "" ==> t[|t| - |r.nome|..] == r.nome
    ensures r.nome == "" ==> t[|t| - 1] == '\U{2014}'
  {
    "C" + IntToString(r.chale) + " \U{2022} " + (if r.nome == "" then "\U{2014}" else r.nome)
  }

  /** One bar: clicking it opens the reservation `id`. */
  datatype Bar = Bar(id: int, chale: int, colour: Colour, text: string)

  function BarOf(r: Reservation): Bar {
    Bar(r.id, r.chale, BarColour(r), Label(r))
  }

  function Bars(occ: seq<Reservation>): (bars: seq<Bar>)
    ensures |bars| == |occ|
    ensures forall i :: 0 <= i < |occ| ==> bars[i] == BarOf(occ[i])
  {
    if occ == [] then [] else [BarOf(occ[0])] + Bars(occ[1..])
  }

  /** The reservations a day cell draws bars for, in drawing order. */
  function DayOccupants(rs: seq<Reservation>, iso: string): seq<Reservation> {
    SortByChale(Matches(rs, iso))
  }

  function DayBars(rs: seq<Reservation>, iso: string): seq<Bar> {
    Bars(DayOccupants(rs, iso))
  }

  /** A day's bars are the occupying reservations, each as often as it was
      loaded, ascending by cabin, each with its colour. */
  lemma DayBarsSpec(rs: seq<Reservation>, iso: string)
    ensures var occ := DayOccupants(rs, iso);
            var bars := DayBars(rs, iso);
            && multiset(occ) == multiset(Matches(rs, iso))
            && (forall r :: r in occ <==> r in rs && Occupies(r, iso))
            && |bars| == |Matches(rs, iso)|
            && (forall i, j :: 0 <= i < j < |bars| ==> bars[i].chale <= bars[j].chale)
            && (forall i :: 0 <= i < |bars| ==> bars[i].id == occ[i].id && bars[i].colour == BarColour(occ[i]))
  {
    DayOccupantsMembers(rs, iso);
    var occ := DayOccupants(rs, iso);
    var bars := Bars(occ);
    assert forall i :: 0 <= i < |bars| ==> bars[i].chale == occ[i].chale;
  }

  /** The occupants drawn on a day are the matches, sorted by cabin. */
  lemma DayOccupantsMembers(rs: seq<Reservation>, iso: string)
    ensures var occ := DayOccupants(rs, iso);
            && SortedByChale(occ)
            && multiset(occ) == multiset(Matches(rs, iso))
            && |occ| == |Matches(rs, iso)|
            && (forall r :: r in occ <==> r in rs && Occupies(r, iso))
  {
    var m := Matches(rs, iso);
    var occ := DayOccupants(rs, iso);
    SortByChaleSpec(m);
    assert |occ| == |m| by {
      assert |multiset(occ)| == |multiset(m)|;
    }
    forall r ensures r in occ <==> r in m {
      assert r in occ <==> r in multiset(occ);
      assert r in m <==> r in multiset(m);
    }
  }

  /** On a day, the bars of one cabin come in the order the reservations
      were loaded. */
  lemma DayBarsStable(rs: seq<Reservation>, iso: string, c: int)
    ensures OfCabin(DayOccupants(rs, iso), c) == OfCabin(Matches(rs, iso), c)
  {
    SortByChaleStable(Matches(rs, iso), c);
  }

  // ---------------------------------------------------------------------
  // Clicking a day
  // ---------------------------------------------------------------------

  /** What a click leads to. */
  datatype Intent = OpenNew(date: string) | OpenEdit(id: int) | NoAction

  /** The day cell's click handler. With several matches the operator is
      prompted for a 1-based ordinal; `pick` is `Number(answer)` when that is
      an integer, None when it is not (a cancelled prompt, text). */
  function DayClick(rs: seq<Reservation>, iso: string, pick: Option<int>): (r: Intent)
    ensures r.OpenEdit? ==> exists x :: x in rs && Occupies(x, iso) && x.id == r.id
  {
    var m := Matches(rs, iso);
    if |m| > 1 then
      if pick.Some? && 1 <= pick.value <= |m| then OpenEdit(m[pick.value - 1].id) else NoAction
    else if |m| == 1 then OpenEdit(m[0].id)
    else OpenNew(iso)
  }

  /** No occupant: a new reservation for that day. One occupant: edit it.
      Several: edit the picked one, when the ordinal is in 1..count, and
      otherwise nothing. Whatever is edited occupies the day. */
  lemma DayClickDispatch(rs: seq<Reservation>, iso: string, pick: Option<int>)
    ensures var m := Matches(rs, iso);
            var r := DayClick(rs, iso, pick);
            && (r.OpenNew? <==> forall x :: x in rs ==> !Occupies(x, iso))
            && (r.OpenNew? ==> r.date == iso)
            && (|m| == 1 ==> r == OpenEdit(m[0].id))
            && (|m| > 1 ==> (r.OpenEdit? <==> pick.Some? && 1 <= pick.value <= |m|))
            && (|m| > 1 && pick.Some? && 1 <= pick.value <= |m| ==> r == OpenEdit(m[pick.value - 1].id))
            && (r.OpenEdit? ==> exists x :: x in rs && Occupies(x, iso) && x.id == r.id)
  {
    DayClickNew(rs, iso, pick);
  }

  /** A click opens a new reservation exactly when nothing occupies the day. */
  lemma DayClickNew(rs: seq<Reservation>, iso: string, pick: Option<int>)
    ensures var r := DayClick(rs, iso, pick);
            (r.OpenNew? <==> forall x :: x in rs ==> !Occupies(x, iso)) && (r.OpenNew? ==> r.date == iso)
  {
    var m := Matches(rs, iso);
    if m != [] {
      assert m[0] in m;
    }
  }

  // ---------------------------------------------------------------------
  // Visible month
  // ---------------------------------------------------------------------

  /** The month after (year, month0), month0 being 0..11. */
  function NextYm(year: int, month0: int): (r: (int, int))
    requires 0 <= month0 <= 11
    ensures 0 <= r.1 <= 11
  {
    if month0 + 1 > 11 then (year + 1, 0) else (year, month0 + 1)
  }

  /** The month before (year, month0). */
  function PrevYm(year: int, month0: int): (r: (int, int))
    requires 0 <= month0 <= 11
    ensures 0 <= r.1 <= 11
  {
    if month0 - 1 < 0 then (year - 1, 11) else (year, month0 - 1)
  }

  /** Months counted from year 0. */
  function MonthIndex(year: int, month0: int): int { 12 * year + month0 }

  /** "next" and "prev" move exactly one month, wrapping the year, and
      undo each other. */
  lemma NavigationSteps(year: int, month0: int)
    requires 0 <= month0 <= 11
    ensures var n := NextYm(year, month0);
            MonthIndex(n.0, n.1) == MonthIndex(year, month0) + 1
    ensures var p := PrevYm(year, month0);
            MonthIndex(p.0, p.1) == MonthIndex(year, month0) - 1
    ensures month0 == 11 ==> NextYm(year, month0) == (year + 1, 0)
    ensures month0 == 0 ==> PrevYm(year, month0) == (year - 1, 11)
    ensures var n := NextYm(year, month0); PrevYm(n.0, n.1) == (year, month0)
    ensures var p := PrevYm(year, month0); NextYm(p.0, p.1) == (year, month0)
  {
  }

  /** `new Date(y, m, d)` reads a year 0..99 as 1900 + y. */
  function JsYear(y: int): int { if 0 <= y <= 99 then 1900 + y else y }

  /** The `from`/`to` query bounds for the visible month: its first and its
      last day. */
  function MonthRange(year: int, month0: int): (string, string)
    requires 0 <= month0 <= 11
  {
    var y := JsYear(year);
    (FormatDateISO(Date(y, month0 + 1, 1)), FormatDateISO(Date(y, month0 + 1, DaysInMonth(y, month0 + 1))))
  }

  /** One day cell of the month grid. */
  datatype Cell = Cell(date: string, bars: seq<Bar>)

  /** The cell of day `d` of a month: its date and the day's bars. */
  function DayCell(rs: seq<Reservation>, year: int, month0: int, d: nat): Cell
    requires 0 <= month0 <= 11
  {
    var iso := CellDate(year, month0, d);
    Cell(iso, DayBars(rs, iso))
  }

  /** The date shown in cell `d` (1-based) of the visible month. */
  function CellDate(year: int, month0: int, d: nat): string
    requires 0 <= month0 <= 11
  {
    FormatDateISO(Date(JsYear(year), month0 + 1, d))
  }

  /** Every day cell lies within the range the month's reservations were
      loaded for. */
  lemma CellWithinRange(year: int, month0: int, d: nat)
    requires 0 <= month0 <= 11 && 1000 <= JsYear(year) <= 9999
    requires 1 <= d <= DaysInMonth(JsYear(year), month0 + 1)
    ensures LexLe(MonthRange(year, month0).0, CellDate(year, month0, d))
    ensures LexLe(CellDate(year, month0, d), MonthRange(year, month0).1)
  {
    var y := JsYear(year);
    var first := Date(y, month0 + 1, 1);
    var last := Date(y, month0 + 1, DaysInMonth(y, month0 + 1));
    var day := Date(y, month0 + 1, d);
    FormatOrder(first, day);
    FormatOrder(day, last);
  }

  /** Every cell's date lies between the bounds, as strings. */
  predicate CellsInRange(cells: seq<Cell>, range: (string, string)) {
    forall i :: 0 <= i < |cells| ==> LexLe(range.0, cells[i].date) && LexLe(cells[i].date, range.1)
  }

  /** Cells dated day 1, 2, ... of a month lie within its loaded range. */
  lemma CellsWithinRange(cells: seq<Cell>, year: int, month0: int)
    requires 0 <= month0 <= 11 && 1000 <= JsYear(year) <= 9999
    requires |cells| <= DaysInMonth(JsYear(year), month0 + 1)
    requires forall i :: 0 <= i < |cells| ==> cells[i].date == CellDate(year, month0, i + 1)
    ensures CellsInRange(cells, MonthRange(year, month0))
  {
    forall i | 0 <= i < |cells|
      ensures LexLe(MonthRange(year, month0).0, cells[i].date) && LexLe(cells[i].date, MonthRange(year, month0).1)
    {
      CellWithinRange(year, month0, i + 1);
    }
  }

  /** The calendar's module state: the visible month and the loaded
      reservations. */
  class CalendarState {
    var visibleYear: int
    var visibleMonth: int
    var reservations: seq<Reservation>

    predicate Valid()
      reads this
    {
      0 <= visibleMonth <= 11
    }

    /** Start on the month of `today`, with nothing loaded. */
    constructor (today: Date)
      requires Dates.Valid(today)
      ensures Valid()
      ensures visibleYear == today.year && visibleMonth == today.month - 1
      ensures reservations == []
    {
      visibleYear := today.year;
      visibleMonth := today.month - 1;
      reservations := [];
    }

    /** The `#nextMonth` handler. */
    method NextMonth()
      requires Valid()
      modifies this
      ensures Valid()
      ensures (visibleYear, visibleMonth) == NextYm(old(visibleYear), old(visibleMonth))
      ensures reservations == old(reservations)
    {
      visibleMonth := visibleMonth + 1;
      if visibleMonth > 11 {
        visibleMonth := 0;
        visibleYear := visibleYear + 1;
      }
    }

    /** The `#prevMonth` handler. */
    method PrevMonth()
      requires Valid()
      modifies this
      ensures Valid()
      ensures (visibleYear, visibleMonth) == PrevYm(old(visibleYear), old(visibleMonth))
      ensures reservations == old(reservations)
    {
      visibleMonth := visibleMonth - 1;
      if visibleMonth < 0 {
        visibleMonth := 11;
        visibleYear := visibleYear - 1;
      }
    }

    /** The query bounds `loadReservations` sends for the visible month. */
    function Range(): (string, string)
      requires Valid()
      reads this
    {
      MonthRange(visibleYear, visibleMonth)
    }

    /** The end of `loadReservations`: the fetched list, or an empty one
      when the request failed (None). */
    method Load(fetched: Option<seq<Reservation>>)
      requires Valid()
      modifies this
      ensures Valid()
      ensures reservations == fetched.GetOr([])
      ensures visibleYear == old(visibleYear) && visibleMonth == old(visibleMonth)
    {
      match fetched
      case Some(rs) => reservations := rs;
      case None => reservations := [];
    }

    /** The cells of the visible month, as `RenderDays` returns them, lie
        within the range the month was loaded for (years 1000 to 9999). */
    lemma RenderedWithinRange(cells: seq<Cell>)
      requires Valid() && 1000 <= JsYear(visibleYear) <= 9999
      requires |cells| == DaysInMonth(JsYear(visibleYear), visibleMonth + 1)
      requires forall i :: 0 <= i < |cells| ==> cells[i].date == CellDate(visibleYear, visibleMonth, i + 1)
      ensures CellsInRange(cells, Range())
    {
      CellsWithinRange(cells, visibleYear, visibleMonth);
    }

    /** `renderCalendar`'s loop over the days of the visible month. */
    method RenderDays() returns (cells: seq<Cell>)
      requires Valid()
      ensures |cells| == DaysInMonth(JsYear(visibleYear), visibleMonth + 1)
      ensures forall i :: 0 <= i < |cells| ==>
                cells[i].date == CellDate(visibleYear, visibleMonth, i + 1)
                && cells[i].bars == DayBars(reservations, cells[i].date)
    {
      var year, month0, rs := visibleYear, visibleMonth, reservations;
      var n := DaysInMonth(JsYear(year), month0 + 1);
      cells := [];
      var d := 1;
      while d <= n
        invariant 1 <= d <= n + 1
        invariant |cells| == d - 1
        invariant forall i :: 0 <= i < |cells| ==> cells[i] == DayCell(rs, year, month0, i + 1)
      {
        cells := cells + [DayCell(rs, year, month0, d)];
        d := d + 1;
      }
    }
  }

  // ---------------------------------------------------------------------
  // The reservation form
  // ---------------------------------------------------------------------

  /** The fields of the reservation form. */
  datatype Form = Form(
    resId: string, chale: string, nome: string, whatsapp: string, valor: string,
    pessoas: int, checkin: string, checkout: string, observacoes: string)

  /** `openNewReservation(isoDate)`; `today` stands for `new Date()`. */
  function NewReservationForm(isoDate: string, today: Date): (f: Form)
    ensures isoDate != "" ==> f.checkin == isoDate
    ensures f.checkin != "" && f.checkout == AddDaysISO(f.checkin, 1)
  {
    var checkin := if isoDate != "" then isoDate else FormatDateISO(today);
    var checkout := if isoDate != "" then AddDaysISO(isoDate, 1) else AddDaysISO(FormatDateISO(today), 1);
    Form("", "1", "", "", "", 2, checkin, checkout, "")
  }

  /** The verdict of the save handler's checks. */
  datatype SubmitVerdict = Accept | MissingDates | CheckoutBeforeCheckin

  /** The checks before saving: both dates filled in, and `new Date(checkout)`
      not earlier than `new Date(checkin)`; a text that is not a date gives an
      invalid Date, which compares false, so it is not rejected here. */
  function SubmitCheck(checkin: string, checkout: string): (v: SubmitVerdict)
    ensures v == MissingDates <==> checkin == "" || checkout == ""
  {
    if checkin == "" || checkout == "" then MissingDates
    else match (ParseFullDate(checkin), ParseFullDate(checkout))
      case (Some(a), Some(b)) => if Before(b, a) then CheckoutBeforeCheckin else Accept
      case _ => Accept
  }

  /** On full-dates the check rejects exactly a check-out that sorts before
      the check-in, and so accepts equal dates. */
  lemma SubmitOnFullDates(checkin: string, checkout: string)
    requires IsFullDate(checkin) && IsFullDate(checkout)
    ensures SubmitCheck(checkin, checkout) == CheckoutBeforeCheckin <==> LexLt(checkout, checkin)
    ensures SubmitCheck(checkin, checkout) == Accept <==> LexLe(checkin, checkout)
    ensures SubmitCheck(checkin, checkin) == Accept
  {
    FullDateOrder(checkout, checkin);
    FullDateOrder(checkin, checkout);
    FullDateEq(checkin, checkout);
    NotLexLe(checkin, checkout);
  }

  /** An empty date is always refused. */
  lemma SubmitNeedsBothDates(checkin: string, checkout: string)
    requires checkin == "" || checkout == ""
    ensures SubmitCheck(checkin, checkout) == MissingDates
  {
  }

  /** The defaults of a new reservation pass the save check: check-out is
      the day after check-in (for days of the years 1000 to 9999). */
  lemma NewReservationPasses(isoDate: string, today: Date)
    requires isoDate != "" ==> IsFullDate(isoDate) && 1000 <= ParseFullDate(isoDate).value.year
                               && NextDay(ParseFullDate(isoDate).value).year <= 9999
    requires isoDate == "" ==> Dates.Valid(today) && 1000 <= today.year && NextDay(today).year <= 9999
    ensures var f := NewReservationForm(isoDate, today);
            && IsFullDate(f.checkin)
            && ParseFullDate(f.checkout) == Some(NextDay(ParseFullDate(f.checkin).value))
            && SubmitCheck(f.checkin, f.checkout) == Accept
  {
    var f := NewReservationForm(isoDate, today);
    if isoDate == "" {
      FormatThenParse(today);
    }
    AddOneDayISO(f.checkin);
    SubmitOnFullDates(f.checkin, f.checkout);
  }

  // ---------------------------------------------------------------------
  // Edit dialog buttons
  // ---------------------------------------------------------------------

  /** The check-in button is shown unless the guest has checked in. */
  predicate ShowCheckinButton(status: string): (shown: bool)
    ensures status == "reservado" ==> shown
  {
    status != "checkin"
  }

  /** The checkout button is shown only once the guest has checked in. */
  predicate ShowCheckoutButton(status: string): (shown: bool)
    ensures shown <==> !ShowCheckinButton(status)
  {
    status == "checkin"
  }
}
