/** The JSON values a request payload carries, as the Flask handlers see
    them after `request.get_json()`, with Python's truthiness and the
    `int(...)` and `.strip()` coercions the handlers apply to them. */
module Values {
  import opened Wrappers
  import opened Strings

  /** A JSON scalar: null, true/false, an integer or a string. */
  datatype Value = Null | Bool(b: bool) | Int(i: int) | Str(s: string)

  /** A JSON object body: `request.get_json() or {}`. */
  type Payload = map<string, Value>

  /** Python truthiness: None, False, 0 and "" are false. */
  predicate Truthy(v: Value) {
    match v
    case Null => false
    case Bool(b) => b
    case Int(i) => i != 0
    case Str(s) => s != ""
  }

  /** `payload.get(key)`: None for a missing key. */
  function Get(p: Payload, key: string): Value {
    if key in p then p[key] else Null
  }

  /** `x or default` */
  function Or(v: Value, default: Value): (r: Value)
    ensures Truthy(v) ==> r == v
    ensures !Truthy(v) ==> r == default
  {
    if Truthy(v) then v else default
  }

  /** Text of a decimal integer with an optional sign, as `int(str)`
      accepts it after stripping whitespace. */
  function ParseIntText(s: string): (r: Option<int>)
    ensures r.Some? ==> s != []
  {
    if s == [] then None
    else if (s[0] == '-' || s[0] == '+') && |s| > 1 && AllDigits(s[1..]) then
      Some(if s[0] == '-' then 0 - Val(s[1..]) as int else Val(s[1..]))
    else if AllDigits(s) then Some(Val(s))
    else None
  }

  /** Python `int(v)`; None stands for the TypeError or ValueError it raises. */
  function PyInt(v: Value): Option<int> {
    match v
    case Null => None
    case Bool(b) => Some(if b then 1 else 0)
    case Int(i) => Some(i)
    case Str(s) => ParseIntText(Trim(s))
  }

  /** `v.strip()`; None stands for the AttributeError on a non-string. */
  function PyStrip(v: Value): Option<string> {
    match v
    case Str(s) => Some(Trim(s))
    case _ => None
  }

  /** `int` of a string of ASCII digits is its decimal value. */
  lemma PyIntOfDigits(s: string)
    requires s != [] && AllDigits(s)
    ensures PyInt(Str(s)) == Some(Val(s))
  {
    assert IsDigit(s[0]) && IsDigit(s[|s| - 1]);
    TrimUnchanged(s);
  }

  /** `int` reads back what `str` writes. */
  lemma PyIntOfText(n: nat)
    ensures PyInt(Str(NatToString(n))) == Some(n)
  {
    PyIntOfDigits(NatToString(n));
  }
}
