/** The loosely typed cell values of the JavaScript tables and the two
    number readers they go through, `parseInt` and `parseFloat`. */
module JsValues {
  import opened Text

  /** A value stored in a table row: a number, the NaN that `parseFloat`
      produces for non-numeric text, or a string. */
  datatype Cell = Num(x: real) | NaN | Str(s: string)

  /** A table row: column header to value (a JavaScript object). */
  type Row = map<string, Cell>

  predicate IsDigit(c: char) { '0' <= c <= '9' }

  predicate IsHexDigit(c: char)
  {
    IsDigit(c) || 'a' <= c <= 'f' || 'A' <= c <= 'F'
  }

  function HexDigitValue(c: char): nat
    requires IsHexDigit(c)
  {
    if IsDigit(c) then c as int - '0' as int
    else if 'a' <= c <= 'f' then c as int - 'a' as int + 10
    else c as int - 'A' as int + 10
  }

  /** Length of the longest prefix of `s` whose characters satisfy `p`. */
  function PrefixLen(s: string, p: char -> bool): (n: nat)
    ensures n <= |s|
    ensures forall k :: 0 <= k < n ==> p(s[k])
    ensures n < |s| ==> !p(s[n])
  {
    if s != [] && p(s[0]) then 1 + PrefixLen(s[1..], p) else 0
  }

  /** Value of a non-empty run of digits in base 10 or 16. */
  function DigitsValue(s: string, radix: nat): nat
    requires radix == 10 || radix == 16
    requires forall k :: 0 <= k < |s| ==> IsHexDigit(s[k])
  {
    if s == [] then 0
    else radix * DigitsValue(s[..|s| - 1], radix) + HexDigitValue(s[|s| - 1])
  }

  /** Splits an optional leading sign off `t`. */
  function SignOf(t: string): (int, string)
  {
    if t != [] && t[0] == '-' then (-1, t[1..])
    else if t != [] && t[0] == '+' then (1, t[1..])
    else (1, t)
  }

  /** JavaScript `parseInt(s)` with no radix: leading white space is
      skipped, a sign is read, a `0x`/`0X` prefix selects base 16, and the
      longest run of digits is read; no digits gives NaN (None). */
  function ParseInt(s: string): (r: Option<int>)
  {
    var (sign, u) := SignOf(TrimStart(s, IsJsSpace));
    match Magnitude(u)
    case Some(m) => Some(sign * m)
    case None => None
  }

  /** The unsigned part of parseInt: hexadecimal after `0x`/`0X`, decimal
      otherwise. */
  function Magnitude(u: string): Option<nat>
  {
    if |u| >= 2 && u[0] == '0' && (u[1] == 'x' || u[1] == 'X') then
      var d := u[2..][..PrefixLen(u[2..], IsHexDigit)];
      if d == [] then None else Some(DigitsValue(d, 16))
    else
      var d := u[..PrefixLen(u, IsDigit)];
      if d == [] then None else Some(DigitsValue(d, 10))
  }

  /** `parseInt(v) || 0`: NaN (and zero) become 0. */
  function ParseIntOr0(s: string): int
  {
    match ParseInt(s)
    case Some(x) => x
    case None => 0
  }

  function Pow10(n: nat): (r: real)
    ensures r >= 1.0
  {
    if n == 0 then 1.0 else 10.0 * Pow10(n - 1)
  }

  /** Reads an exponent part `e[+-]digits` at the start of `t`; a marker
      without digits is not an exponent and contributes 0. */
  function ExponentOf(t: string): int
  {
    if t != [] && (t[0] == 'e' || t[0] == 'E') then
      var (sign, u) := SignOf(t[1..]);
      var d := u[..PrefixLen(u, IsDigit)];
      if d == [] then 0 else sign * DigitsValue(d, 10)
    else 0
  }

  function Scale(x: real, e: int): real
  {
    if e >= 0 then x * Pow10(e) else x / Pow10(-e)
  }

  /** JavaScript `parseFloat(s)` on decimal literals: leading white space,
      a sign, digits with an optional fraction, an optional exponent. With
      no digit before or after the point the result is NaN (None). */
  function ParseFloat(s: string): (r: Option<real>)
  {
    var (sign, u) := SignOf(TrimStart(s, IsJsSpace));
    var n := PrefixLen(u, IsDigit);
    var intPart, rest := u[..n], u[n..];
    var hasPoint := rest != [] && rest[0] == '.';
    var afterPoint := if hasPoint then rest[1..] else "";
    var frac := afterPoint[..PrefixLen(afterPoint, IsDigit)];
    var tail := if hasPoint then afterPoint[|frac|..] else rest;
    if intPart == [] && frac == [] then None
    else
      var mantissa := (DigitsValue(intPart + frac, 10) as real) / Pow10(|frac|);
      Some(sign as real * Scale(mantissa, ExponentOf(tail)))
  }

  /** `parseFloat(v) || 0` applied to a cell: numbers are kept, NaN
      becomes 0, strings are read by parseFloat. */
  function CellNumber(c: Cell): real
  {
    match c
    case Num(x) => x
    case NaN => 0.0
    case Str(s) => match ParseFloat(s) case Some(x) => x case None => 0.0
  }

  /** The value `parseFloat(v) || 0` of an optional field (missing reads as
      `undefined`, which parses to NaN). */
  function FieldNumber(row: Row, key: string): real
  {
    if key in row then CellNumber(row[key]) else 0.0
  }

  lemma DigitCharValue(d: nat)
    requires d < 10
    ensures IsHexDigit(DigitChar(d)) && HexDigitValue(DigitChar(d)) == d
  {
  }

  lemma {:induction false} DigitsOfNatToString(n: nat)
    ensures forall k :: 0 <= k < |NatToString(n)| ==> IsHexDigit(NatToString(n)[k])
    ensures DigitsValue(NatToString(n), 10) == n
  {
    var s := NatToString(n);
    if n >= 10 {
      DigitsOfNatToString(n / 10);
      DigitCharValue(n % 10);
      assert s[..|s| - 1] == NatToString(n / 10);
      assert s[|s| - 1] == DigitChar(n % 10);
    } else {
      DigitCharValue(n);
      assert s[..0] == [];
    }
  }

  lemma {:induction false} NatToStringLeadingZero(n: nat)
    ensures NatToString(n)[0] == '0' ==> n == 0
  {
    if n >= 10 {
      NatToStringLeadingZero(n / 10);
      assert NatToString(n)[0] == NatToString(n / 10)[0];
    }
  }

  lemma DigitsAllDigit(s: string)
    requires forall k :: 0 <= k < |s| ==> IsDigit(s[k])
    ensures PrefixLen(s, IsDigit) == |s|
  {
  }

  lemma MagnitudeOfNatToString(n: nat)
    ensures Magnitude(NatToString(n)) == Some(n)
  {
    var s := NatToString(n);
    DigitsOfNatToString(n);
    NatToStringLeadingZero(n);
    DigitsAllDigit(s);
    assert s[..PrefixLen(s, IsDigit)] == s;
  }

  /** Reading back a rendered natural number with parseInt gives the number. */
  lemma ParseIntOfNatToString(n: nat)
    ensures ParseInt(NatToString(n)) == Some(n)
  {
    var s := NatToString(n);
    MagnitudeOfNatToString(n);
    assert !IsJsSpace(s[0]);
    TrimStartNoSpace(s, IsJsSpace);
    assert SignOf(s) == (1, s);
  }
}
