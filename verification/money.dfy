/** `valor_to_cents` (app.py): the server's reading of an amount of money
    typed into the form, in pt-BR notation ("1.234,56"), as an integer
    number of cents.  The float parse is modelled with exact decimal
    arithmetic: the text is read as a decimal fraction and rounded to
    cents half-to-even, as Python's `round` does. */
module Money {
  import opened Wrappers
  import opened Strings
  import opened Values
  import Masks

  /** `s.replace('.', '').replace(',', '.')`: drop the thousands dots, then
      turn the decimal comma into a point. */
  function Normalize(s: string): string {
    if s == [] then []
    else (if s[0] == '.' then [] else if s[0] == ',' then ['.'] else [s[0]]) + Normalize(s[1..])
  }

  /** A decimal number as `float` reads it: sign, integer digits and
      fraction digits, at least one digit in all. */
  datatype Decimal = Decimal(negative: bool, whole: string, fraction: string)

  predicate WellFormed(x: Decimal) {
    AllDigits(x.whole) && AllDigits(x.fraction) && x.whole + x.fraction != []
  }

  /** The plain decimal forms of Python's `float(str)`: an optional sign,
      digits, and an optional point followed by digits. */
  function ParseDecimal(s: string): (r: Option<Decimal>)
    ensures r.Some? ==> WellFormed(r.value)
  {
    var negative := s != [] && s[0] == '-';
    var body := if s != [] && (s[0] == '-' || s[0] == '+') then s[1..] else s;
    var parts := Split(body, '.');
    if |parts| == 1 && AllDigits(parts[0]) && parts[0] != [] then
      Some(Decimal(negative, parts[0], []))
    else if |parts| == 2 && AllDigits(parts[0]) && AllDigits(parts[1]) && parts[0] + parts[1] != [] then
      Some(Decimal(negative, parts[0], parts[1]))
    else
      None
  }

  /** Round n / d to an integer, half to even, as Python's `round` does. */
  function RoundHalfEven(n: nat, d: nat): nat
    requires d >= 1
  {
    var q0 := n / d;
    var rem := n % d;
    if 2 * rem > d || (2 * rem == d && q0 % 2 == 1) then q0 + 1 else q0
  }

  /** RoundHalfEven gives the integer nearest to n / d, and on a tie the
      even one of the two. */
  lemma RoundHalfEvenNearest(n: nat, d: nat)
    requires d >= 1
    ensures var q := RoundHalfEven(n, d);
            && 2 * (q * d - n) <= d && 2 * (n - q * d) <= d
            && (2 * (q * d - n) == d || 2 * (n - q * d) == d ==> q % 2 == 0)
  {
    var q0 := n / d;
    var rem := n % d;
    assert n == q0 * d + rem && 0 <= rem < d;
    assert (q0 + 1) * d == q0 * d + d;
  }

  /** `round(x * 100)` for the decimal x, in exact arithmetic. */
  function Cents(x: Decimal): int
    requires WellFormed(x)
  {
    var m := Val(x.whole + x.fraction);
    var k := |x.fraction|;
    var magnitude := if k <= 2 then m * Pow10(2 - k) else RoundHalfEven(m, Pow10(k - 2));
    if x.negative then -magnitude else magnitude
  }

  /** `valor_to_cents(v)` for the JSON values a payload can carry: a falsy
      value (None, false, 0, "") is zero cents. A string is stripped, its
      dots dropped and its comma made a point, and `float` strips the
      result once more before reading it. */
  function ValorToCents(v: Value): (r: int)
    ensures !Truthy(v) ==> r == 0
  {
    match v
    case Null => 0
    case Bool(b) => if b then 100 else 0
    case Int(i) => i * 100
    case Str(s) =>
      var t := Trim(s);
      if t == [] then 0
      else match ParseDecimal(Trim(Normalize(t)))
        case None => 0
        case Some(x) => Cents(x)
  }

  /** An absent amount and a blank one are both zero cents. */
  lemma BlankIsZero(s: string)
    requires AllSpace(s)
    ensures ValorToCents(Null) == 0
    ensures ValorToCents(Str(s)) == 0
  {
    TrimEmptyIff(s);
  }

  lemma {:induction false} NormalizeAppend(a: string, b: string)
    ensures Normalize(a + b) == Normalize(a) + Normalize(b)
  {
    if a == [] {
      assert a + b == b;
    } else {
      assert (a + b)[0] == a[0];
      assert (a + b)[1..] == a[1..] + b;
      NormalizeAppend(a[1..], b);
    }
  }

  lemma {:induction false} NormalizeDigits(s: string)
    requires AllDigits(s)
    ensures Normalize(s) == s
  {
    if s != [] {
      assert IsDigit(s[0]);
      NormalizeDigits(s[1..]);
    }
  }

  /** Dropping the dots undoes the currency mask's thousands grouping. */
  lemma {:induction false} NormalizeGroup(s: string)
    requires AllDigits(s)
    ensures Normalize(Masks.Group(s)) == s
    decreases |s|
  {
    if |s| <= 3 {
      NormalizeDigits(s);
    } else {
      var head, tail := s[..|s| - 3], s[|s| - 3..];
      var g := Masks.Group(head);
      assert Masks.Group(s) == g + "." + tail;
      assert AllDigits(head) && AllDigits(tail);
      assert Normalize(g + "." + tail) == head + tail by {
        NormalizeAppend(g + ".", tail);
        NormalizeAppend(g, ".");
        NormalizeGroup(head);
        NormalizeDigits(tail);
        NormalizeDot();
      }
      assert head + tail == s;
    }
  }

  lemma NormalizeDot()
    ensures Normalize(".") == [] && Normalize(",") == "."
  {
    assert "."[1..] == [] && ","[1..] == [];
  }

  lemma {:induction false} GroupFirst(s: string)
    requires s != []
    ensures Masks.Group(s) != [] && Masks.Group(s)[0] == s[0]
    decreases |s|
  {
    if |s| > 3 {
      GroupFirst(s[..|s| - 3]);
    }
  }

  /** The currency mask's text normalises to the plain decimal with a point. */
  lemma NormalizeCurrency(whole: string, fraction: string)
    requires AllDigits(whole) && AllDigits(fraction)
    ensures Normalize(Masks.Group(whole) + "," + fraction) == whole + "." + fraction
  {
    var g := Masks.Group(whole);
    NormalizeAppend(g + ",", fraction);
    NormalizeAppend(g, ",");
    NormalizeGroup(whole);
    NormalizeDigits(fraction);
    NormalizeDot();
  }

  /** A digit string, a point and two digits read back as that many cents. */
  lemma CentsOfPointTwo(whole: string, fraction: string)
    requires AllDigits(whole) && whole != [] && AllDigits(fraction) && |fraction| == 2
    ensures ParseDecimal(whole + "." + fraction) == Some(Decimal(false, whole, fraction))
    ensures Cents(Decimal(false, whole, fraction)) == Val(whole + fraction)
  {
    var s := whole + "." + fraction;
    assert s[0] == whole[0] && IsDigit(whole[0]);
    assert '.' !in whole by {
      assert forall i :: 0 <= i < |whole| ==> IsDigit(whole[i]);
    }
    assert '.' !in fraction by {
      assert forall i :: 0 <= i < |fraction| ==> IsDigit(fraction[i]);
    }
    SplitAt(whole, fraction, '.');
    SplitNoSep(fraction, '.');
    assert Split(s, '.') == [whole, fraction];
  }

  /** The round trip promised at app.py:48: the server reads the currency
      mask's text back as the whole number formed by its digits, so the
      amount the operator sees ("1.234,56") is the number of cents stored
      (123456).  An input with no digits reads as zero. */
  lemma MaskedValueRoundTrip(input: string)
    ensures ValorToCents(Str(Masks.CurrencyText(input))) == Val(Digits(input))
  {
    var p := Masks.MaskDigits(input);
    var whole, fraction := p[..|p| - 2], p[|p| - 2..];
    Masks.MaskDigitsParts(input);
    var text := Masks.CurrencyText(input);
    assert text == Masks.Group(whole) + "," + fraction;
    ReadCurrencyText(whole, fraction);
    PaddedValue(input);
  }

  /** The text the currency mask builds from integer and cents digits is
      read as the value of those digits together. */
  lemma ReadCurrencyText(whole: string, fraction: string)
    requires AllDigits(whole) && whole != [] && AllDigits(fraction) && |fraction| == 2
    ensures ValorToCents(Str(Masks.Group(whole) + "," + fraction)) == Val(whole + fraction)
  {
    var text := Masks.Group(whole) + "," + fraction;
    assert Trim(text) == text by {
      GroupFirst(whole);
      assert text[0] == whole[0] && text[|text| - 1] == fraction[1];
      assert IsDigit(whole[0]) && IsDigit(fraction[1]);
      TrimUnchanged(text);
    }
    var x := Decimal(false, whole, fraction);
    assert ParseDecimal(Trim(Normalize(text))) == Some(x) by {
      NormalizeCurrency(whole, fraction);
      var n := whole + "." + fraction;
      assert n[0] == whole[0] && n[|n| - 1] == fraction[1];
      assert IsDigit(whole[0]) && IsDigit(fraction[1]);
      TrimUnchanged(n);
      CentsOfPointTwo(whole, fraction);
    }
    assert Cents(x) == Val(whole + fraction) by {
      CentsOfPointTwo(whole, fraction);
    }
    ReadText(text, x);
  }

  /** valor_to_cents of a string that is already stripped and parses. */
  lemma ReadText(text: string, x: Decimal)
    requires Trim(text) == text && text != []
    requires ParseDecimal(Trim(Normalize(text))) == Some(x)
    ensures WellFormed(x) && ValorToCents(Str(text)) == Cents(x)
  {
  }

  /** The padding the mask adds does not change the value of the digits. */
  lemma PaddedValue(input: string)
    ensures AllDigits(Masks.MaskDigits(input))
    ensures Val(Masks.MaskDigits(input)) == Val(Digits(input))
  {
    var p := Masks.MaskDigits(input);
    Masks.MaskDigitsShape(input);
    var d := Digits(input);
    if d == [] {
      assert p == Zeros(3) + d;
    } else {
      var k: nat :| p == Zeros(k) + d;
      assert k == |p| - |d|;
    }
    assert p == Zeros(|p| - |d|) + d;
    ValZeros(|p| - |d|, d);
  }

  /** The example in the comment at app.py:48. */
  lemma ExampleThousands(text: string, digits: string)
    requires text == "1.234,56" && digits == "123456"
    ensures ValorToCents(Str(text)) == Val(digits)
  {
    Masks.CurrencyOfDigits(digits);
    var whole := digits[..4];
    assert whole == "1234" && digits[4..] == "56";
    assert whole[..1] == "1" && whole[1..] == "234";
    assert Masks.Group(whole) == "1" + "." + "234";
    assert Masks.CurrencyText(digits) == text;
    MaskedValueRoundTrip(digits);
    DigitsOfAllDigits(digits);
  }

  /** `float` strips the text again after the dots are dropped: "5 ."
      becomes "5 " and reads as 5, i.e. 500 cents. */
  lemma ExampleSpaceBeforeDot(text: string)
    requires text == "5 ."
    ensures ValorToCents(Str(text)) == 500
  {
    TrimUnchanged(text);
    NormalizeDot();
    assert text[1..] == " ." && text[1..][1..] == ".";
    assert Normalize(" .") == " " + Normalize(".");
    assert Normalize(text) == "5" + Normalize(" .");
    var n := Normalize(text);
    assert n == "5 ";
    assert n[..1] == "5" && n[1..] == " ";
    assert TrimStart(n) == n;
    assert TrimEnd(n) == TrimEnd("5");
    assert Trim(n) == "5";
    assert "5"[1..] == [] && "5"[..0] == [];
    assert Split("5"[1..], '.') == [[]];
    assert Split("5", '.') == [['5'] + []] + [];
    assert Val("5") == 5;
  }
}
