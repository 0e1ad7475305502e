/** Python's `int(s)` and `float(s)` on text read from CSV files: the whole
    string, less surrounding white space, must be a decimal literal, or the
    call raises ValueError (None here). */
module PyNumbers {
  import opened Text
  import opened JsValues

  predicate AllDigits(s: string)
  {
    forall k :: 0 <= k < |s| ==> IsDigit(s[k])
  }

  /** `int(s)`. */
  function PyInt(s: string): (r: Option<int>)
    ensures r.Some? ==> Strip(s) != ""
  {
    var (sign, u) := SignOf(Strip(s));
    if u != [] && AllDigits(u) then Some(sign * DigitsValue(u, 10)) else None
  }

  /** The exponent part of a float literal: empty, or `e`/`E`, an optional
      sign and at least one digit; anything else is malformed. */
  function PyExponent(t: string): Option<int>
  {
    if t == [] then Some(0)
    else if t[0] == 'e' || t[0] == 'E' then
      var (sign, u) := SignOf(t[1..]);
      if u != [] && AllDigits(u) then Some(sign * DigitsValue(u, 10)) else None
    else None
  }

  /** `float(s)` on decimal literals. */
  function PyFloat(s: string): (r: Option<real>)
    ensures r.Some? ==> Strip(s) != ""
  {
    var (sign, u) := SignOf(Strip(s));
    var n := PrefixLen(u, IsDigit);
    var intPart, rest := u[..n], u[n..];
    var hasPoint := rest != [] && rest[0] == '.';
    var afterPoint := if hasPoint then rest[1..] else "";
    var frac := afterPoint[..PrefixLen(afterPoint, IsDigit)];
    var tail := if hasPoint then afterPoint[|frac|..] else rest;
    if intPart == [] && frac == [] then None
    else
      match PyExponent(tail)
      case None => None
      case Some(e) =>
        var mantissa := (DigitsValue(intPart + frac, 10) as real) / Pow10(|frac|);
        Some(sign as real * Scale(mantissa, e))
  }

  lemma DigitIsNotSpace(c: char)
    requires IsDigit(c)
    ensures !IsPySpace(c)
  {
  }

  lemma StripDigits(s: string)
    requires s != [] && AllDigits(s)
    ensures Strip(s) == s
  {
    DigitIsNotSpace(s[0]);
    DigitIsNotSpace(s[|s| - 1]);
    TrimStartNoSpace(s, IsPySpace);
  }

  lemma RenderedNatIsDigits(n: nat)
    ensures AllDigits(NatToString(n)) && DigitsValue(NatToString(n), 10) == n
    ensures Strip(NatToString(n)) == NatToString(n)
  {
    DigitsOfNatToString(n);
    StripDigits(NatToString(n));
  }

  /** `int(str(n)) == n`. */
  lemma PyIntOfNatToString(n: nat)
    ensures PyInt(NatToString(n)) == Some(n)
  {
    RenderedNatIsDigits(n);
    var s := NatToString(n);
    assert SignOf(s) == (1, s);
  }
}
