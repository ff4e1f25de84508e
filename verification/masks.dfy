/** The two input masks the booking form re-applies on every keystroke: the
    Brazilian mobile phone mask `(DD) DDDDD-DDDD` and the pt-BR currency mask
    `I.III,CC`. */
module Masks {
  import opened Strings

  function Min(a: int, b: int): int { if a <= b then a else b }

  // ---------------------------------------------------------------------
  // Phone mask
  // ---------------------------------------------------------------------

  /** The input listener of the WhatsApp field: keep the first 11 digits, then
      `(DD) rest` from 3 to 7 digits and `(DD) DDDDD-rest` from 8 on. */
  function PhoneMask(input: string): (r: string)
    ensures |r| <= 15
    ensures |Digits(input)| <= 2 ==> r == Digits(input)
  {
    var all := Digits(input);
    var v := all[..Min(11, |all|)];
    if |v| > 2 && |v| <= 7 then "(" + v[..2] + ") " + v[2..]
    else if |v| > 7 then "(" + v[..2] + ") " + v[2..7] + "-" + v[7..]
    else v
  }

  lemma DigitsOfLiteral(s: string)
    requires forall i :: 0 <= i < |s| ==> !IsDigit(s[i])
    ensures Digits(s) == []
  {
    DigitsOfNoDigits(s);
  }

  /** Digits of `(a) b`, the three-to-seven digit shape. */
  lemma DigitsOfShort(a: string, b: string)
    requires AllDigits(a) && AllDigits(b)
    ensures Digits("(" + a + ") " + b) == a + b
  {
    var x := "(" + a;
    var y := x + ") ";
    DigitsOfLiteral("(");
    DigitsOfLiteral(") ");
    DigitsOfAllDigits(a);
    DigitsOfAllDigits(b);
    DigitsAppend("(", a);
    assert Digits(x) == a;
    DigitsAppend(x, ") ");
    assert Digits(y) == a;
    DigitsAppend(y, b);
  }

  /** Digits of `(a) b-c`, the full shape. */
  lemma DigitsOfLong(a: string, b: string, c: string)
    requires AllDigits(a) && AllDigits(b) && AllDigits(c)
    ensures Digits("(" + a + ") " + b + "-" + c) == a + b + c
  {
    var y := "(" + a + ") " + b;
    var z := y + "-";
    DigitsOfShort(a, b);
    assert Digits(y) == a + b;
    DigitsOfLiteral("-");
    DigitsAppend(y, "-");
    assert Digits(z) == a + b;
    DigitsOfAllDigits(c);
    DigitsAppend(z, c);
  }

  /** The digits of the masked phone are exactly the first min(11, n) digits
      of the input; with at most two digits nothing is added, with three to
      seven the output is `(DD) rest`, with more it is `(DD) DDDDD-rest`;
      so the output is at most 15 characters long. */
  lemma PhoneMaskShape(input: string)
    ensures var all := Digits(input);
            var v := all[..Min(11, |all|)];
            && Digits(PhoneMask(input)) == v
            && (|v| <= 2 ==> PhoneMask(input) == v)
            && (2 < |v| <= 7 ==> PhoneMask(input) == "(" + v[..2] + ") " + v[2..])
            && (7 < |v| ==> PhoneMask(input) == "(" + v[..2] + ") " + v[2..7] + "-" + v[7..])
            && |PhoneMask(input)| <= 15
  {
    var all := Digits(input);
    var v := all[..Min(11, |all|)];
    assert AllDigits(v);
    if |v| > 2 && |v| <= 7 {
      DigitsOfShort(v[..2], v[2..]);
      assert v[..2] + v[2..] == v;
    } else if |v| > 7 {
      DigitsOfLong(v[..2], v[2..7], v[7..]);
      assert v[..2] + v[2..7] + v[7..] == v;
    } else {
      DigitsOfAllDigits(v);
    }
  }

  /** Masking an already masked phone changes nothing. */
  lemma PhoneMaskIdempotent(input: string)
    ensures PhoneMask(PhoneMask(input)) == PhoneMask(input)
  {
    PhoneMaskShape(input);
    PhoneMaskShape(PhoneMask(input));
    var all := Digits(input);
    var v := all[..Min(11, |all|)];
    assert Digits(PhoneMask(input)) == v;
    assert v[..Min(11, |v|)] == v;
  }

  lemma PhoneMaskOfDigits(s: string)
    requires AllDigits(s) && 7 < |s| <= 11
    ensures PhoneMask(s) == "(" + s[..2] + ") " + s[2..7] + "-" + s[7..]
  {
    DigitsOfAllDigits(s);
    assert s[..Min(11, |s|)] == s;
  }

  lemma PhoneMaskOfShortDigits(s: string)
    requires AllDigits(s) && 2 < |s| <= 7
    ensures PhoneMask(s) == "(" + s[..2] + ") " + s[2..]
  {
    DigitsOfAllDigits(s);
    assert s[..Min(11, |s|)] == s;
  }

  /** The worked example of the form with eleven digits. */
  lemma PhoneMaskExampleFull(long: string)
    requires long == "11987654321"
    ensures PhoneMask(long) == "(11) 98765-4321"
  {
    assert AllDigits(long);
    PhoneMaskOfDigits(long);
    assert long[..2] == "11" && long[2..7] == "98765" && long[7..] == "4321";
  }

  /** The worked example of the form with three digits. */
  lemma PhoneMaskExampleShort(short: string)
    requires short == "119"
    ensures PhoneMask(short) == "(11) 9"
  {
    assert AllDigits(short);
    PhoneMaskOfShortDigits(short);
    assert short[..2] == "11" && short[2..] == "9";
  }

  lemma DigitsOfAllDigitsIf(s: string)
    ensures AllDigits(s) ==> Digits(s) == s
  {
    if AllDigits(s) {
      DigitsOfAllDigits(s);
    }
  }

  /** The guard of the "open WhatsApp" button: at least 11 digits typed. */
  predicate CanOpenWhatsApp(fieldText: string): (ok: bool)
    ensures ok ==> |fieldText| >= 11
    ensures AllDigits(fieldText) ==> (ok <==> |fieldText| >= 11)
  {
    DigitsOfAllDigitsIf(fieldText);
    |Digits(fieldText)| >= 11
  }

  /** A fully masked phone always passes the WhatsApp guard, and a shorter
      one never does. */
  lemma WhatsAppGuardOnMasked(input: string)
    ensures CanOpenWhatsApp(PhoneMask(input)) <==> |Digits(input)| >= 11
  {
    PhoneMaskShape(input);
  }

  // ---------------------------------------------------------------------
  // Currency mask
  // ---------------------------------------------------------------------

  /** `s.replace(/\B(?=(\d{3})+(?!\d))/g, '.')` on a digit string, grouped
      from the right: a '.' before every later run of three digits. */
  function Group(s: string): string
    decreases |s|
  {
    if |s| <= 3 then s else Group(s[..|s| - 3]) + "." + s[|s| - 3..]
  }

  /** The regular expression read position by position: before the digit at
      j, a '.' when j is not the first position (`\B`) and a positive multiple
      of three digits follows up to the end (`(?=(\d{3})+(?!\d))`). */
  function RegexDots(s: string, j: nat): string
    requires j <= |s|
    decreases |s| - j
  {
    if j == |s| then ""
    else (if 0 < j && (|s| - j) % 3 == 0 then "." else "") + [s[j]] + RegexDots(s, j + 1)
  }

  lemma {:induction false} RegexDotsPrefix(a: string, b: string, j: nat)
    requires |b| == 3 && j <= |a|
    ensures RegexDots(a + b, j) == RegexDots(a, j) + RegexDots(a + b, |a|)
    decreases |a| - j
  {
    if j < |a| {
      var s := a + b;
      var dot := if 0 < j && (|a| - j) % 3 == 0 then "." else "";
      var rest := RegexDots(s, |a|);
      assert RegexDots(s, j) == dot + [a[j]] + RegexDots(s, j + 1) by {
        assert s[j] == a[j];
        ModThree(|a| - j);
      }
      assert RegexDots(a, j) == dot + [a[j]] + RegexDots(a, j + 1);
      RegexDotsPrefix(a, b, j + 1);
      assert dot + [a[j]] + (RegexDots(a, j + 1) + rest) == dot + [a[j]] + RegexDots(a, j + 1) + rest;
    }
  }

  lemma ModThree(n: nat)
    ensures (n + 3) % 3 == n % 3
  {
  }

  lemma RegexDotsLastThree(a: string, b: string)
    requires |b| == 3 && |a| >= 1
    ensures RegexDots(a + b, |a|) == "." + b
  {
    var s := a + b;
    assert RegexDots(s, |a| + 3) == "";
    assert RegexDots(s, |a| + 2) == [b[2]];
    assert RegexDots(s, |a| + 1) == [b[1], b[2]];
  }

  /** Fewer than three digits before the end: no dot is inserted. */
  lemma {:induction false} RegexDotsTail(s: string, j: nat)
    requires j <= |s| && |s| - j < 3
    ensures RegexDots(s, j) == s[j..]
    decreases |s| - j
  {
    if j < |s| {
      RegexDotsTail(s, j + 1);
      assert s[j..] == [s[j]] + s[j + 1..];
    }
  }

  lemma RegexDotsShort(s: string)
    requires |s| <= 3
    ensures RegexDots(s, 0) == s
  {
    if s != [] {
      RegexDotsTail(s, 1);
      assert s == [s[0]] + s[1..];
    }
  }

  /** `Group` is the regular expression replacement. */
  lemma {:induction false} GroupIsRegex(s: string)
    ensures Group(s) == RegexDots(s, 0)
    decreases |s|
  {
    if |s| <= 3 {
      RegexDotsShort(s);
    } else {
      var a, b := s[..|s| - 3], s[|s| - 3..];
      assert s == a + b;
      GroupIsRegex(a);
      RegexDotsPrefix(a, b, 0);
      RegexDotsLastThree(a, b);
    }
  }

  lemma {:induction false} SplitLast(x: string, b: string, sep: char)
    requires sep !in b
    ensures Split(x + [sep] + b, sep) == Split(x, sep) + [b]
    decreases |x|
  {
    if x == [] {
      assert x + [sep] + b == [sep] + b;
      SplitNoSep(b, sep);
      assert ([sep] + b)[1..] == b;
    } else {
      SplitLast(x[1..], b, sep);
      assert (x + [sep] + b)[1..] == x[1..] + [sep] + b;
    }
  }

  /** The groups between the dots: the first has one to three digits, every
      other exactly three, and together they are the input. */
  lemma {:induction false} GroupGroups(s: string)
    requires s != [] && AllDigits(s)
    ensures var g := Split(Group(s), '.');
            && 1 <= |g[0]| <= 3
            && (forall i :: 1 <= i < |g| ==> |g[i]| == 3)
    decreases |s|
  {
    if |s| <= 3 {
      assert '.' !in s by {
        forall i | 0 <= i < |s| ensures s[i] != '.' { assert IsDigit(s[i]); }
      }
      SplitNoSep(s, '.');
    } else {
      var a, b := s[..|s| - 3], s[|s| - 3..];
      GroupGroups(a);
      assert '.' !in b by {
        forall i | 0 <= i < 3 ensures b[i] != '.' { assert IsDigit(b[i]); }
      }
      SplitLast(Group(a), b, '.');
      assert Group(s) == Group(a) + ['.'] + b;
    }
  }

  /** Removing the dots from a grouped digit string gives it back. */
  lemma {:induction false} DigitsOfGroup(s: string)
    requires AllDigits(s)
    ensures Digits(Group(s)) == s
    decreases |s|
  {
    if |s| <= 3 {
      DigitsOfAllDigits(s);
    } else {
      var a, b := s[..|s| - 3], s[|s| - 3..];
      var g := Group(a);
      var gd := g + ".";
      assert Group(s) == gd + b;
      assert AllDigits(a) && AllDigits(b);
      assert Digits(gd) == a by {
        DigitsOfGroup(a);
        DigitsAppend(g, ".");
        DigitsOfLiteral(".");
      }
      assert Digits(b) == b by {
        DigitsOfAllDigits(b);
      }
      DigitsAppend(gd, b);
      assert a + b == s;
    }
  }

  /** The digit string the currency mask formats: the input's digits, "0"
      when there are none, left-padded with zeros to at least three. */
  function MaskDigits(input: string): string {
    var v := Digits(input);
    PadStart(if v == [] then "0" else v, 3)
  }

  lemma MaskDigitsShape(input: string)
    ensures var p := MaskDigits(input);
            && |p| >= 3 && AllDigits(p)
            && (Digits(input) == [] ==> p == "000")
            && (Digits(input) != [] ==> exists k: nat :: p == Zeros(k) + Digits(input))
            && (1 <= |Digits(input)| < 3 ==> |p| == 3)
            && (|Digits(input)| >= 3 ==> p == Digits(input))
  {
    var v := Digits(input);
    var p := MaskDigits(input);
    if v != [] {
      if |v| >= 3 {
        assert p == Zeros(0) + v;
      } else {
        assert p == Zeros(3 - |v|) + v;
      }
    } else {
      assert Zeros(2) + "0" == "000";
    }
  }

  /** The padded digits split into the integer part and the two cents. */
  lemma MaskDigitsParts(input: string)
    ensures var p := MaskDigits(input);
            && |p| >= 3 && AllDigits(p)
            && AllDigits(p[..|p| - 2]) && AllDigits(p[|p| - 2..])
            && p[..|p| - 2] + p[|p| - 2..] == p
  {
    MaskDigitsShape(input);
  }

  /** The currency text for a given input: integer part grouped with '.',
      a ',' and two cents digits. */
  function CurrencyText(input: string): (r: string)
    ensures |r| >= 3 && r[|r| - 3] == ','
    ensures AllDigits(r[|r| - 2..]) && r[|r| - 2..] == MaskDigits(input)[|MaskDigits(input)| - 2..]
  {
    MaskDigitsShape(input);
    var p := MaskDigits(input);
    Group(p[..|p| - 2]) + "," + p[|p| - 2..]
  }

  lemma PadOneMore(v: string, start: string)
    requires |start| <= |v| && v == Zeros(|v| - |start|) + start
    ensures "0" + v == Zeros(|v| + 1 - |start|) + start
  {
    assert "0" + Zeros(|v| - |start|) == Zeros(|v| + 1 - |start|);
  }

  lemma PaddedIsPadStart(v: string, start: string)
    requires |start| <= |v| && v == Zeros(|v| - |start|) + start && |v| >= 3
    requires |start| < 3 ==> |v| <= 3
    requires |start| >= 3 ==> v == start
    ensures v == PadStart(start, 3)
  {
  }

  /** The input listener of the value field: strip non-digits, use "0" for
      nothing, pad with zeros up to three digits, split off two cents digits
      and group the rest. */
  method CurrencyMask(input: string) returns (r: string)
    ensures r == CurrencyText(input)
  {
    var v := Digits(input);
    if v == [] {
      v := "0";
    }
    ghost var start := v;
    while |v| < 3
      invariant |start| <= |v| && v == Zeros(|v| - |start|) + start
      invariant |start| < 3 ==> |v| <= 3
      invariant |start| >= 3 ==> v == start
      decreases 3 - |v|
    {
      PadOneMore(v, start);
      v := "0" + v;
    }
    PaddedIsPadStart(v, start);
    var cents := v[|v| - 2..];
    var integer := Group(v[..|v| - 2]);
    r := integer + "," + cents;
  }

  /** What the mask produces: an integer part, a comma, two digits; the
      integer part is the grouping of all but the last two padded digits,
      its groups are one to three digits then threes, and the digits of the
      whole text are the padded digits. */
  lemma CurrencyShape(input: string)
    ensures var p := MaskDigits(input);
            var r := CurrencyText(input);
            && |p| >= 3
            && r == Group(p[..|p| - 2]) + "," + p[|p| - 2..]
            && Group(p[..|p| - 2]) == RegexDots(p[..|p| - 2], 0)
            && 1 <= |Split(Group(p[..|p| - 2]), '.')[0]| <= 3
            && Digits(r) == p
  {
    var p := MaskDigits(input);
    MaskDigitsParts(input);
    var i, c := p[..|p| - 2], p[|p| - 2..];
    GroupIsRegex(i);
    GroupGroups(i);
    assert Digits(Group(i) + "," + c) == i + c by {
      DigitsOfGroup(i);
      DigitsAppend(Group(i) + ",", c);
      DigitsAppend(Group(i), ",");
      DigitsOfLiteral(",");
      DigitsOfAllDigits(c);
    }
  }

  /** Masking an already masked value changes nothing. */
  lemma CurrencyIdempotent(input: string)
    ensures CurrencyText(CurrencyText(input)) == CurrencyText(input)
  {
    CurrencyShape(input);
    var p := MaskDigits(input);
    assert Digits(CurrencyText(input)) == p;
    assert MaskDigits(CurrencyText(input)) == p;
  }

  /** On a digit string of length three or more the mask only groups and
      inserts the comma. */
  lemma CurrencyOfDigits(s: string)
    requires AllDigits(s) && |s| >= 3
    ensures CurrencyText(s) == Group(s[..|s| - 2]) + "," + s[|s| - 2..]
  {
    DigitsOfAllDigits(s);
  }

  /** Worked example: a single digit becomes five cents. */
  lemma CurrencyExampleFiveCents(x: string)
    requires x == "5"
    ensures CurrencyText(x) == "0,05"
  {
    DigitsOfAllDigits(x);
    assert Zeros(2) + x == "005";
    CurrencyOfPadded(x, "005");
    assert Group("0") == "0";
  }

  /** Worked example: seven digits, one thousands separator. */
  lemma CurrencyExampleThousands(x: string)
    requires x == "1234567"
    ensures CurrencyText(x) == "12.345,67"
  {
    CurrencyOfDigits(x);
    var i := x[..5];
    assert i == "12345" && x[5..] == "67";
    assert i[..2] == "12" && i[2..] == "345";
    assert Group(i) == "12" + "." + "345";
  }

  /** Worked example: an already masked value is left as it is. */
  lemma CurrencyExampleMasked(x: string)
    requires x == "0,05"
    ensures CurrencyText(x) == "0,05"
  {
    DigitsOfShort2("0", "05");
    assert x == "0" + "," + "05";
    assert Zeros(0) + "005" == "005";
    CurrencyOfPadded(x, "005");
    assert Group("0") == "0";
  }

  /** The currency text of an input whose padded digits are `p`. */
  lemma CurrencyOfPadded(x: string, p: string)
    requires MaskDigits(x) == p
    ensures |p| >= 3
    ensures CurrencyText(x) == Group(p[..|p| - 2]) + "," + p[|p| - 2..]
  {
    MaskDigitsShape(x);
  }

  lemma DigitsOfShort2(a: string, b: string)
    requires AllDigits(a) && AllDigits(b)
    ensures Digits(a + "," + b) == a + b
  {
    var x := a + ",";
    DigitsOfLiteral(",");
    DigitsOfAllDigits(a);
    DigitsOfAllDigits(b);
    DigitsAppend(a, ",");
    assert Digits(x) == a;
    DigitsAppend(x, b);
  }
}
