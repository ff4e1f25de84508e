/** Calendar days and the date strings both sides exchange: the client's
    `formatDateISO`, `addDaysISO` and `isoToDisplay`, the RFC 3339 section 5.6
    `full-date` shape (`YYYY-MM-DD`), and Python's `strptime(s, '%Y-%m-%d')`
    used by the server. The central fact is RFC 3339 section 5.1: full-date
    strings compare, character by character, in chronological order. */
module Dates {
  import opened Wrappers
  import opened Strings

  /** A calendar day; `month` is 1..12 (JavaScript's `getMonth() + 1`). */
  datatype Date = Date(year: int, month: nat, day: nat)

  predicate IsLeapYear(y: int) { y % 4 == 0 && (y % 100 != 0 || y % 400 == 0) }

  function DaysInMonth(y: int, m: nat): (n: nat)
    requires 1 <= m <= 12
    ensures 28 <= n <= 31
  {
    if m == 2 then (if IsLeapYear(y) then 29 else 28)
    else if m == 4 || m == 6 || m == 9 || m == 11 then 30
    else 31
  }

  predicate Valid(d: Date) {
    1 <= d.month <= 12 && 1 <= d.day <= DaysInMonth(d.year, d.month)
  }

  /** Strictly earlier, in the (year, month, day) order. */
  predicate Before(a: Date, b: Date) {
    a.year < b.year
    || (a.year == b.year && (a.month < b.month || (a.month == b.month && a.day < b.day)))
  }

  // ---------------------------------------------------------------------
  // formatDateISO and the full-date shape
  // ---------------------------------------------------------------------

  /** `String(n).padStart(2, '0')` */
  function Pad2(n: nat): string {
    PadStart(NatToString(n), 2)
  }

  /** `formatDateISO`: the year as `String(year)` (not padded), month and
      day padded to two digits. */
  function FormatDateISO(d: Date): string {
    IntToString(d.year) + "-" + Pad2(d.month) + "-" + Pad2(d.day)
  }

  /** Four digits, a dash, two digits, a dash, two digits. */
  predicate FullDateShape(s: string) {
    |s| == 10 && s[4] == '-' && s[7] == '-'
    && AllDigits(s[..4]) && AllDigits(s[5..7]) && AllDigits(s[8..])
  }

  /** The three numeric fields of a full-date shaped string. */
  function Fields(s: string): Date
    requires FullDateShape(s)
  {
    Date(Val(s[..4]), Val(s[5..7]), Val(s[8..]))
  }

  /** An RFC 3339 full-date naming a real calendar day; this is also what a
      JavaScript `Date` accepts from `YYYY-MM-DD` text. */
  function ParseFullDate(s: string): (r: Option<Date>)
    ensures r.Some? ==> FullDateShape(s) && Valid(r.value) && 0 <= r.value.year
  {
    if FullDateShape(s) && Valid(Fields(s)) then Some(Fields(s)) else None
  }

  predicate IsFullDate(s: string) { ParseFullDate(s).Some? }

  lemma Pad2Digits(n: nat)
    requires n < 100
    ensures |Pad2(n)| == 2 && AllDigits(Pad2(n)) && Val(Pad2(n)) == n
  {
    if n < 10 {
      ValZeros(1, NatToString(n));
    } else {
      NatToStringLength(n, 2);
    }
  }

  /** Two digits read and written back with padding give the same text. */
  lemma Pad2Val(x: string)
    requires |x| == 2 && AllDigits(x)
    ensures Pad2(Val(x)) == x
  {
    if x[0] == '0' {
      var c := x[1..];
      assert x == ['0'] + c;
      ValLeadingZero(c);
      NatToStringVal(c);
      assert Zeros(1) == ['0'];
    } else {
      NatToStringVal(x);
    }
  }

  /** For four-digit years `formatDateISO` writes a full-date whose fields
      read back as the date. */
  lemma {:induction false} FormatDateISOShape(d: Date)
    requires Valid(d) && 1000 <= d.year <= 9999
    ensures FullDateShape(FormatDateISO(d)) && Fields(FormatDateISO(d)) == d
  {
    var y := NatToString(d.year);
    NatToStringLength(d.year, 4);
    Pad2Digits(d.month);
    Pad2Digits(d.day);
    var s := FormatDateISO(d);
    assert s == y + "-" + Pad2(d.month) + "-" + Pad2(d.day);
    assert s[..4] == y;
    assert s[5..7] == Pad2(d.month);
    assert s[8..] == Pad2(d.day);
  }

  /** Round trip: a valid date with a four-digit year survives
      `formatDateISO` followed by parsing. */
  lemma FormatThenParse(d: Date)
    requires Valid(d) && 1000 <= d.year <= 9999
    ensures ParseFullDate(FormatDateISO(d)) == Some(d)
  {
    FormatDateISOShape(d);
  }

  /** Round trip the other way: a full-date whose year does not start with
      '0' is exactly what `formatDateISO` writes for it. */
  lemma ParseThenFormat(s: string)
    requires IsFullDate(s) && s[0] != '0'
    ensures FormatDateISO(ParseFullDate(s).value) == s
  {
    var d := ParseFullDate(s).value;
    NatToStringVal(s[..4]);
    Pad2Val(s[5..7]);
    Pad2Val(s[8..]);
    assert s == s[..4] + "-" + s[5..7] + "-" + s[8..];
  }

  /** RFC 3339 section 5.1: full-date shaped strings compare, character by
      character, exactly as their (year, month, day) fields do. */
  lemma {:induction false} FullDateOrder(s: string, t: string)
    requires FullDateShape(s) && FullDateShape(t)
    ensures LexLe(s, t) <==> !Before(Fields(t), Fields(s))
  {
    assert s == s[..4] + s[4..] && t == t[..4] + t[4..];
    LexLeAppend(s[..4], t[..4], s[4..], t[4..]);
    assert s[4..] == [s[4]] + s[5..] && t[4..] == [t[4]] + t[5..];
    LexLeAppend([s[4]], [t[4]], s[5..], t[5..]);
    assert s[5..] == s[5..7] + s[7..] && t[5..] == t[5..7] + t[7..];
    LexLeAppend(s[5..7], t[5..7], s[7..], t[7..]);
    assert s[7..] == [s[7]] + s[8..] && t[7..] == [t[7]] + t[8..];
    LexLeAppend([s[7]], [t[7]], s[8..], t[8..]);
    LexLeDigits(s[..4], t[..4]);
    LexLeDigits(s[5..7], t[5..7]);
    LexLeDigits(s[8..], t[8..]);
  }

  /** Full-date strings are equal exactly when their fields are. */
  lemma FullDateEq(s: string, t: string)
    requires FullDateShape(s) && FullDateShape(t)
    ensures s == t <==> Fields(s) == Fields(t)
  {
    FullDateOrder(s, t);
    FullDateOrder(t, s);
    if Fields(s) == Fields(t) {
      LexLeAntisym(s, t);
    }
  }

  /** The same for two days written by `formatDateISO`. */
  lemma FormatOrder(a: Date, b: Date)
    requires Valid(a) && 1000 <= a.year <= 9999
    requires Valid(b) && 1000 <= b.year <= 9999
    ensures LexLe(FormatDateISO(a), FormatDateISO(b)) <==> !Before(b, a)
  {
    FormatDateISOShape(a);
    FormatDateISOShape(b);
    FullDateOrder(FormatDateISO(a), FormatDateISO(b));
  }

  // ---------------------------------------------------------------------
  // Day arithmetic: addDaysISO
  // ---------------------------------------------------------------------

  /** The following calendar day (what `setDate(getDate() + 1)` normalises to). */
  function NextDay(d: Date): (r: Date)
    requires Valid(d)
    ensures Valid(r)
  {
    if d.day < DaysInMonth(d.year, d.month) then Date(d.year, d.month, d.day + 1)
    else if d.month < 12 then Date(d.year, d.month + 1, 1)
    else Date(d.year + 1, 1, 1)
  }

  /** `NextDay` is the immediate successor: later than `d`, and no valid day
      lies strictly between the two. */
  lemma NextDayIsSuccessor(d: Date, e: Date)
    requires Valid(d) && Valid(e)
    ensures Before(d, NextDay(d))
    ensures Before(d, e) ==> !Before(e, NextDay(d))
  {
  }

  function AddDays(d: Date, n: nat): (r: Date)
    requires Valid(d)
    ensures Valid(r)
    decreases n
  {
    if n == 0 then d else AddDays(NextDay(d), n - 1)
  }

  /** `addDaysISO(iso, n)` for n >= 0: parse `iso + 'T00:00:00'` as a local
      day, move n days forward, format. Text that is not a full-date gives an
      Invalid Date, which formats as "NaN-NaN-NaN". An empty `iso` makes
      `parseISO` return null and the call throw, so callers never pass one. */
  function AddDaysISO(iso: string, n: nat): (r: string)
    requires iso != ""
    ensures ParseFullDate(iso).Some? && 1000 <= AddDays(ParseFullDate(iso).value, n).year <= 9999 ==>
              ParseFullDate(r) == Some(AddDays(ParseFullDate(iso).value, n))
  {
    match ParseFullDate(iso)
    case Some(d) =>
      var e := AddDays(d, n);
      if 1000 <= e.year <= 9999 then FormatThenParse(e); FormatDateISO(e) else FormatDateISO(e)
    case None => "NaN-NaN-NaN"
  }

  /** One day after a full-date (year 1000 or later, not the last day of
      9999) is the next calendar day, again a full-date, and sorts after it. */
  lemma AddOneDayISO(iso: string)
    requires IsFullDate(iso)
    requires ParseFullDate(iso).value.year >= 1000 && NextDay(ParseFullDate(iso).value).year <= 9999
    ensures ParseFullDate(AddDaysISO(iso, 1)) == Some(NextDay(ParseFullDate(iso).value))
    ensures LexLt(iso, AddDaysISO(iso, 1))
  {
    var d := ParseFullDate(iso).value;
    var e := NextDay(d);
    assert AddDays(d, 1) == e;
    FormatThenParse(e);
    FormatDateISOShape(e);
    var t := AddDaysISO(iso, 1);
    FullDateOrder(iso, t);
    FullDateOrder(t, iso);
    NextDayIsSuccessor(d, e);
  }

  // ---------------------------------------------------------------------
  // isoToDisplay
  // ---------------------------------------------------------------------

  function PartOr(parts: seq<string>, i: nat): string {
    if i < |parts| then parts[i] else "undefined"
  }

  /** `isoToDisplay`: empty for empty input, otherwise the three dash
      separated parts as `d/m/y`; a missing part prints as "undefined". */
  function IsoToDisplay(iso: string): (r: string)
    ensures r == "" <==> iso == ""
    ensures iso != "" ==> '/' in r
  {
    if iso == "" then ""
    else
      var p := Split(iso, '-');
      PartOr(p, 2) + "/" + PartOr(p, 1) + "/" + PartOr(p, 0)
  }

  /** On a full-date, `isoToDisplay` gives `DD/MM/YYYY`. */
  lemma DisplayOfFullDate(s: string)
    requires FullDateShape(s)
    ensures IsoToDisplay(s) == s[8..] + "/" + s[5..7] + "/" + s[..4]
  {
    assert s == s[..4] + ['-'] + (s[5..7] + ['-'] + s[8..]);
    assert '-' !in s[..4] by {
      forall i | 0 <= i < 4 ensures s[..4][i] != '-' { assert IsDigit(s[..4][i]); }
    }
    assert '-' !in s[5..7] by {
      forall i | 0 <= i < 2 ensures s[5..7][i] != '-' { assert IsDigit(s[5..7][i]); }
    }
    assert '-' !in s[8..] by {
      forall i | 0 <= i < 2 ensures s[8..][i] != '-' { assert IsDigit(s[8..][i]); }
    }
    SplitAt(s[..4], s[5..7] + ['-'] + s[8..], '-');
    SplitAt(s[5..7], s[8..], '-');
    SplitNoSep(s[8..], '-');
  }

  // ---------------------------------------------------------------------
  // Python: datetime.strptime(s, '%Y-%m-%d')
  // ---------------------------------------------------------------------

  /** One field match: its value and the number of characters it used. */
  datatype FieldMatch = FieldMatch(value: nat, width: nat)

  /** `%m` is the regular expression `1[0-2]|0[1-9]|[1-9]`; the first
      alternative that matches at position i wins. */
  function MatchMonth(s: string, i: nat): (r: Option<FieldMatch>)
    ensures r.Some? ==> 1 <= r.value.width && i + r.value.width <= |s|
  {
    if i < |s| && s[i] == '1' && i + 1 < |s| && '0' <= s[i + 1] <= '2' then
      Some(FieldMatch(10 + DigitValue(s[i + 1]), 2))
    else if i < |s| && s[i] == '0' && i + 1 < |s| && '1' <= s[i + 1] <= '9' then
      Some(FieldMatch(DigitValue(s[i + 1]), 2))
    else if i < |s| && '1' <= s[i] <= '9' then
      Some(FieldMatch(DigitValue(s[i]), 1))
    else None
  }

  /** `%d` is `3[01]|[12]\d|0[1-9]|[1-9]| [1-9]`, first match wins. */
  function MatchDay(s: string, i: nat): (r: Option<FieldMatch>)
    ensures r.Some? ==> 1 <= r.value.width && i + r.value.width <= |s|
  {
    if i < |s| && s[i] == '3' && i + 1 < |s| && (s[i + 1] == '0' || s[i + 1] == '1') then
      Some(FieldMatch(30 + DigitValue(s[i + 1]), 2))
    else if i < |s| && (s[i] == '1' || s[i] == '2') && i + 1 < |s| && IsDigit(s[i + 1]) then
      Some(FieldMatch(10 * DigitValue(s[i]) + DigitValue(s[i + 1]), 2))
    else if i < |s| && s[i] == '0' && i + 1 < |s| && '1' <= s[i + 1] <= '9' then
      Some(FieldMatch(DigitValue(s[i + 1]), 2))
    else if i < |s| && '1' <= s[i] <= '9' then
      Some(FieldMatch(DigitValue(s[i]), 1))
    else if i < |s| && s[i] == ' ' && i + 1 < |s| && '1' <= s[i + 1] <= '9' then
      Some(FieldMatch(DigitValue(s[i + 1]), 2))
    else None
  }

  /** `datetime.strptime(s, '%Y-%m-%d')`: `%Y` is exactly four digits, the
      whole text must be used ("unconverted data remains" otherwise), and
      the day must exist (year 1 or later). None stands for the ValueError. */
  function Strptime(s: string): (r: Option<Date>)
    ensures r.Some? ==> Valid(r.value) && 1 <= r.value.year
  {
    if |s| < 5 || !AllDigits(s[..4]) || s[4] != '-' then None
    else
      var y := Val(s[..4]);
      match MatchMonth(s, 5)
      case None => None
      case Some(m) =>
        var j := 5 + m.width;
        if j >= |s| || s[j] != '-' then None
        else
          match MatchDay(s, j + 1)
          case None => None
          case Some(d) =>
            if j + 1 + d.width != |s| then None
            else if y < 1 || m.value < 1 || m.value > 12 then None
            else if d.value < 1 || d.value > DaysInMonth(y, m.value) then None
            else Some(Date(y, m.value, d.value))
  }

  /** On a full-date with a year from 1 on, `strptime` reads the same day as
      the RFC 3339 parse. */
  lemma StrptimeOfFullDate(s: string)
    requires IsFullDate(s) && ParseFullDate(s).value.year >= 1
    ensures Strptime(s) == ParseFullDate(s)
  {
    var d := ParseFullDate(s).value;
    var mm := s[5..7];
    var dd := s[8..];
    assert Val(mm) == 10 * DigitValue(s[5]) + DigitValue(s[6]) by {
      assert mm[..1] == [s[5]];
      assert Val(mm[..1]) == DigitValue(s[5]);
    }
    assert Val(dd) == 10 * DigitValue(s[8]) + DigitValue(s[9]) by {
      assert dd[..1] == [s[8]];
      assert Val(dd[..1]) == DigitValue(s[8]);
    }
  }

  /** `strptime` also takes one-digit months and days, which are not
      full-dates: "2024-5-1" is the 1st of May 2024. */
  lemma StrptimeAcceptsShortFields()
    ensures Strptime("2024-5-1") == Some(Date(2024, 5, 1))
    ensures !FullDateShape("2024-5-1")
  {
    var s := "2024-5-1";
    assert s[..4] == "2024";
    assert Val("2024") == 2024 by {
      assert "2024"[..3] == "202" && "202"[..2] == "20" && "20"[..1] == "2";
    }
  }
}
