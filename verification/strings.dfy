/** The optional value used across the model (a missing payload key, a SQL NULL,
    a string that does not parse). */
module Wrappers {
  datatype Option<+T> = None | Some(value: T) {
    function GetOr(default: T): T {
      match this
      case Some(v) => v
      case None => default
    }
  }
}

/** Character- and string-level rules shared by the browser client and the
    server: the digit filter `replace(/\D/g, '')`, the code-unit order in which
    both sides compare date strings, decimal text, trimming and splitting. */
module Strings {

  predicate IsDigit(c: char) { '0' <= c <= '9' }

  predicate AllDigits(s: string) { forall i :: 0 <= i < |s| ==> IsDigit(s[i]) }

  /** `s.replace(/\D/g, '')`: the ASCII digits of `s`, in their order. */
  function Digits(s: string): (r: string)
    ensures AllDigits(r) && |r| <= |s|
  {
    if s == [] then [] else (if IsDigit(s[0]) then [s[0]] else []) + Digits(s[1..])
  }

  lemma {:induction false} DigitsAppend(a: string, b: string)
    ensures Digits(a + b) == Digits(a) + Digits(b)
    decreases |a|
  {
    if a == [] {
      assert a + b == b;
    } else {
      assert (a + b)[0] == a[0];
      assert (a + b)[1..] == a[1..] + b;
      DigitsAppend(a[1..], b);
    }
  }

  /** Stripping non-digits from a digit string changes nothing. */
  lemma {:induction false} DigitsOfAllDigits(s: string)
    requires AllDigits(s)
    ensures Digits(s) == s
    decreases |s|
  {
    if s != [] {
      DigitsOfAllDigits(s[1..]);
      assert s == [s[0]] + s[1..];
    }
  }

  /** A string without digits contributes nothing to `Digits`. */
  lemma {:induction false} DigitsOfNoDigits(s: string)
    requires forall i :: 0 <= i < |s| ==> !IsDigit(s[i])
    ensures Digits(s) == []
    decreases |s|
  {
    if s != [] {
      DigitsOfNoDigits(s[1..]);
    }
  }

  // ---------------------------------------------------------------------
  // Code-unit order
  // ---------------------------------------------------------------------

  /** `a <= b` on strings, character by character: JavaScript's `<=` on
      strings, SQLite's BINARY collation and Python's `<=` on `str` all
      order ASCII text this way. */
  predicate LexLe(a: string, b: string)
    decreases |a|
  {
    a == [] || (b != [] && (a[0] < b[0] || (a[0] == b[0] && LexLe(a[1..], b[1..]))))
  }

  /** `a < b` on strings. */
  predicate LexLt(a: string, b: string) { LexLe(a, b) && a != b }

  lemma {:induction false} LexLeTotal(a: string, b: string)
    ensures LexLe(a, b) || LexLe(b, a)
    decreases |a|
  {
    if a != [] && b != [] && a[0] == b[0] {
      LexLeTotal(a[1..], b[1..]);
    }
  }

  lemma {:induction false} LexLeAntisym(a: string, b: string)
    requires LexLe(a, b) && LexLe(b, a)
    ensures a == b
    decreases |a|
  {
    if a != [] {
      LexLeAntisym(a[1..], b[1..]);
      assert a == [a[0]] + a[1..];
      assert b == [b[0]] + b[1..];
    }
  }

  lemma {:induction false} LexLeTrans(a: string, b: string, c: string)
    requires LexLe(a, b) && LexLe(b, c)
    ensures LexLe(a, c)
    decreases |a|
  {
    if a != [] && a[0] == b[0] && b[0] == c[0] {
      LexLeTrans(a[1..], b[1..], c[1..]);
    }
  }

  /** The order is total, so "not a <= b" is exactly "b < a". */
  lemma NotLexLe(a: string, b: string)
    ensures !LexLe(a, b) <==> LexLt(b, a)
  {
    LexLeTotal(a, b);
    if LexLe(a, b) && LexLe(b, a) {
      LexLeAntisym(a, b);
    }
    if LexLt(b, a) && LexLe(a, b) {
      LexLeAntisym(a, b);
    }
  }

  /** Comparing two strings with equal-length prefixes: the prefixes decide
      unless they are equal. This is why fixed-width fields compare field by
      field. */
  lemma {:induction false} LexLeAppend(p: string, q: string, x: string, y: string)
    requires |p| == |q|
    ensures LexLe(p + x, q + y) == if p == q then LexLe(x, y) else LexLe(p, q)
    decreases |p|
  {
    if p == [] {
      assert p + x == x;
      assert q + y == y;
    } else {
      assert (p + x)[0] == p[0] && (q + y)[0] == q[0];
      assert (p + x)[1..] == p[1..] + x;
      assert (q + y)[1..] == q[1..] + y;
      LexLeAppend(p[1..], q[1..], x, y);
      assert p == [p[0]] + p[1..];
      assert q == [q[0]] + q[1..];
    }
  }

  // ---------------------------------------------------------------------
  // Decimal text
  // ---------------------------------------------------------------------

  function DigitChar(d: nat): (c: char)
    requires d < 10
    ensures IsDigit(c)
  {
    ('0' as int + d) as char
  }

  function DigitValue(c: char): (d: nat)
    requires IsDigit(c)
    ensures d < 10
  {
    c as int - '0' as int
  }

  lemma DigitRoundTrip(c: char)
    requires IsDigit(c)
    ensures DigitChar(DigitValue(c)) == c
  {
  }

  function Pow10(k: nat): (r: nat)
    ensures r >= 1
  {
    if k == 0 then 1 else 10 * Pow10(k - 1)
  }

  /** The value of a base-10 digit string; leading zeros are allowed. */
  function Val(s: string): nat
    requires AllDigits(s)
    decreases |s|
  {
    if s == [] then 0 else 10 * Val(s[..|s| - 1]) + DigitValue(s[|s| - 1])
  }

  /** A leading zero does not change the value of a digit string. */
  lemma {:induction false} ValLeadingZero(s: string)
    requires AllDigits(s)
    ensures AllDigits(['0'] + s) && Val(['0'] + s) == Val(s)
    decreases |s|
  {
    var z := ['0'] + s;
    if s != [] {
      assert z[..|z| - 1] == ['0'] + s[..|s| - 1];
      ValLeadingZero(s[..|s| - 1]);
    }
  }

  lemma {:induction false} ValAppendDigit(s: string, c: char)
    requires AllDigits(s) && IsDigit(c)
    ensures AllDigits(s + [c]) && Val(s + [c]) == 10 * Val(s) + DigitValue(c)
  {
    assert (s + [c])[..|s|] == s;
  }

  /** A digit string that does not start with '0' is worth at least 1. */
  lemma {:induction false} ValPositive(s: string)
    requires AllDigits(s) && s != [] && s[0] != '0'
    ensures Val(s) >= 1
    decreases |s|
  {
    if |s| > 1 {
      ValPositive(s[..|s| - 1]);
    }
  }

  /** `String(n)` for a non-negative integer: its decimal digits, no padding. */
  function NatToString(n: nat): (r: string)
    ensures 1 <= |r| && AllDigits(r) && Val(r) == n
    decreases n
  {
    if n < 10 then [DigitChar(n)]
    else
      var p := NatToString(n / 10);
      ValAppendDigit(p, DigitChar(n % 10));
      p + [DigitChar(n % 10)]
  }

  /** `String(n)` has k characters when 10^(k-1) <= n < 10^k. */
  lemma {:induction false} NatToStringLength(n: nat, k: nat)
    requires 1 <= k && Pow10(k - 1) <= n < Pow10(k)
    ensures |NatToString(n)| == k
    decreases k
  {
    if k > 1 {
      NatToStringLength(n / 10, k - 1);
    }
  }

  /** `String(i)` for any integer. */
  function IntToString(i: int): string {
    if i < 0 then "-" + NatToString(-i) else NatToString(i)
  }

  /** Reading a digit string without leading zeros and writing it back gives
      the same text. */
  lemma {:induction false} NatToStringVal(s: string)
    requires AllDigits(s) && s != [] && (|s| == 1 || s[0] != '0')
    ensures NatToString(Val(s)) == s
    decreases |s|
  {
    var n := |s| - 1;
    var p := s[..n];
    assert s == p + [s[n]];
    if n == 0 {
      DigitRoundTrip(s[0]);
    } else {
      ValPositive(p);
      NatToStringVal(p);
      DigitRoundTrip(s[n]);
      assert Val(s) / 10 == Val(p) && Val(s) % 10 == DigitValue(s[n]);
    }
  }

  /** `'0'.repeat(k)` */
  function Zeros(k: nat): (r: string)
    ensures |r| == k && AllDigits(r)
  {
    seq(k, _ => '0')
  }

  /** Zero digits in front do not change the value. */
  lemma {:induction false} ValZeros(k: nat, s: string)
    requires AllDigits(s)
    ensures AllDigits(Zeros(k) + s) && Val(Zeros(k) + s) == Val(s)
    decreases k
  {
    if k == 0 {
      assert Zeros(k) + s == s;
    } else {
      assert Zeros(k) + s == ['0'] + (Zeros(k - 1) + s);
      ValZeros(k - 1, s);
      ValLeadingZero(Zeros(k - 1) + s);
    }
  }

  /** `s.padStart(w, '0')` */
  function PadStart(s: string, w: nat): string {
    if |s| >= w then s else Zeros(w - |s|) + s
  }

  /** Equal-length digit strings are in code-unit order exactly when their
      values are in numeric order. */
  lemma {:induction false} LexLeDigits(s: string, t: string)
    requires AllDigits(s) && AllDigits(t) && |s| == |t|
    ensures LexLe(s, t) <==> Val(s) <= Val(t)
    ensures s == t <==> Val(s) == Val(t)
    decreases |s|
  {
    if s != [] {
      var n := |s| - 1;
      LexLeDigits(s[..n], t[..n]);
      assert s == s[..n] + [s[n]];
      assert t == t[..n] + [t[n]];
      LexLeAppend(s[..n], t[..n], [s[n]], [t[n]]);
      assert LexLe([s[n]], [t[n]]) <==> s[n] <= t[n];
    }
  }

  // ---------------------------------------------------------------------
  // Whitespace and splitting
  // ---------------------------------------------------------------------

  /** ASCII whitespace, which JavaScript's `trim()` and Python's `strip()`
      both remove. */
  predicate IsSpace(c: char) {
    c == ' ' || c == '\t' || c == '\n' || c == '\r' || c == '\U{000B}' || c == '\U{000C}'
  }

  predicate AllSpace(s: string) { forall i :: 0 <= i < |s| ==> IsSpace(s[i]) }

  /** Drop the leading whitespace. */
  function TrimStart(s: string): (r: string)
    ensures r == [] || !IsSpace(r[0])
    decreases |s|
  {
    if s != [] && IsSpace(s[0]) then TrimStart(s[1..]) else s
  }

  /** Drop the trailing whitespace. */
  function TrimEnd(s: string): (r: string)
    ensures r == [] || !IsSpace(r[|r| - 1])
    decreases |s|
  {
    if s != [] && IsSpace(s[|s| - 1]) then TrimEnd(s[..|s| - 1]) else s
  }

  /** `s.trim()` (JavaScript) and `s.strip()` (Python) on ASCII whitespace. */
  function Trim(s: string): string {
    TrimEnd(TrimStart(s))
  }

  lemma AllSpaceAppend(x: string, y: string)
    ensures AllSpace(x + y) <==> AllSpace(x) && AllSpace(y)
  {
    var xy := x + y;
    assert forall i :: 0 <= i < |x| ==> xy[i] == x[i];
    assert forall i :: 0 <= i < |y| ==> xy[|x| + i] == y[i];
    if AllSpace(x) && AllSpace(y) {
      forall i | 0 <= i < |xy| ensures IsSpace(xy[i]) {
        if i >= |x| { assert xy[i] == y[i - |x|]; }
      }
    }
  }

  lemma {:induction false} TrimEndEmpty(a: string)
    ensures TrimEnd(a) == [] <==> AllSpace(a)
    decreases |a|
  {
    if a != [] && IsSpace(a[|a| - 1]) {
      var init := a[..|a| - 1];
      TrimEndEmpty(init);
      assert a == init + [a[|a| - 1]];
      AllSpaceAppend(init, [a[|a| - 1]]);
    }
  }

  lemma {:induction false} TrimStartSpace(s: string)
    ensures AllSpace(TrimStart(s)) <==> AllSpace(s)
    decreases |s|
  {
    if s != [] && IsSpace(s[0]) {
      TrimStartSpace(s[1..]);
      assert s == [s[0]] + s[1..];
      AllSpaceAppend([s[0]], s[1..]);
    }
  }

  /** Trimming leaves nothing exactly when the string is all whitespace. */
  lemma TrimEmptyIff(s: string)
    ensures Trim(s) == [] <==> AllSpace(s)
  {
    TrimEndEmpty(TrimStart(s));
    TrimStartSpace(s);
  }

  /** A string that starts and ends with a non-space is left as it is. */
  lemma TrimUnchanged(s: string)
    requires s != [] && !IsSpace(s[0]) && !IsSpace(s[|s| - 1])
    ensures Trim(s) == s
  {
  }

  /** `s.split(sep)` */
  function Split(s: string, sep: char): (parts: seq<string>)
    ensures |parts| >= 1
    decreases |s|
  {
    if s == [] then [[]]
    else
      var rest := Split(s[1..], sep);
      if s[0] == sep then [[]] + rest else [[s[0]] + rest[0]] + rest[1..]
  }

  lemma {:induction false} SplitNoSep(a: string, sep: char)
    requires sep !in a
    ensures Split(a, sep) == [a]
    decreases |a|
  {
    if a != [] {
      SplitNoSep(a[1..], sep);
      assert a == [a[0]] + a[1..];
    }
  }

  lemma {:induction false} SplitAt(a: string, b: string, sep: char)
    requires sep !in a
    ensures Split(a + [sep] + b, sep) == [a] + Split(b, sep)
    decreases |a|
  {
    var s := a + [sep] + b;
    if a == [] {
      assert s[1..] == b;
    } else {
      assert s[0] == a[0];
      assert s[1..] == a[1..] + [sep] + b;
      SplitAt(a[1..], b, sep);
      assert a == [a[0]] + a[1..];
    }
  }
}
