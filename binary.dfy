/** Bit strings as the Python scripts build them (`'0'`/`'1'` characters,
    most significant first), their value under `int(s, 2)`, and the
    division facts behind right shifts. */
module Binary {

  function Pow2(n: nat): (r: nat)
    ensures r >= 1
  {
    if n == 0 then 1 else 2 * Pow2(n - 1)
  }

  lemma {:induction false} Pow2Add(a: nat, b: nat)
    ensures Pow2(a + b) == Pow2(a) * Pow2(b)
    decreases b
  {
    if b > 0 {
      Pow2Add(a, b - 1);
      assert Pow2(a + b) == 2 * Pow2(a + b - 1);
    }
  }

  lemma {:induction false} Pow2Monotone(a: nat, b: nat)
    requires a <= b
    ensures Pow2(a) <= Pow2(b)
    decreases b
  {
    if a < b {
      Pow2Monotone(a, b - 1);
    }
  }

  predicate IsBits(s: string)
  {
    forall k :: 0 <= k < |s| ==> s[k] == '0' || s[k] == '1'
  }

  /** Python `int(s, 2)` on a non-empty bit string (on "" Python raises). */
  function BitsValue(s: string): nat
    requires IsBits(s)
  {
    if s == [] then 0
    else 2 * BitsValue(s[..|s| - 1]) + (if s[|s| - 1] == '1' then 1 else 0)
  }

  lemma BitsAppend(a: string, b: string)
    requires IsBits(a) && IsBits(b)
    ensures IsBits(a + b)
  {
  }

  lemma TwiceScaled(x: nat, p: nat, y: nat, bit: nat)
    ensures 2 * (x * p + y) + bit == x * (2 * p) + (2 * y + bit)
  {
  }

  lemma {:induction false} BitsValueAppend(a: string, b: string)
    requires IsBits(a) && IsBits(b)
    ensures IsBits(a + b)
    ensures BitsValue(a + b) == BitsValue(a) * Pow2(|b|) + BitsValue(b)
    decreases |b|
  {
    BitsAppend(a, b);
    if b != [] {
      var b' := b[..|b| - 1];
      var bit := if b[|b| - 1] == '1' then 1 else 0;
      assert (a + b)[..|a + b| - 1] == a + b';
      assert (a + b)[|a + b| - 1] == b[|b| - 1];
      BitsValueAppend(a, b');
      TwiceScaled(BitsValue(a), Pow2(|b'|), BitsValue(b'), bit);
    } else {
      assert a + b == a;
    }
  }

  lemma {:induction false} BitsValueBound(s: string)
    requires IsBits(s)
    ensures BitsValue(s) < Pow2(|s|)
    decreases |s|
  {
    if s != [] {
      BitsValueBound(s[..|s| - 1]);
    }
  }

  function Zeros(n: nat): (r: string)
    ensures |r| == n && IsBits(r)
    ensures forall k :: 0 <= k < n ==> r[k] == '0'
  {
    if n == 0 then "" else "0" + Zeros(n - 1)
  }

  lemma {:induction false} ZerosValue(n: nat)
    ensures BitsValue(Zeros(n)) == 0
    decreases n
  {
    if n > 0 {
      assert Zeros(n)[..n - 1] == Zeros(n - 1) by {
        assert forall k :: 0 <= k < n - 1 ==> Zeros(n)[k] == '0' == Zeros(n - 1)[k];
      }
      ZerosValue(n - 1);
    }
  }

  /** Leading zeros do not change the value of a bit string. */
  lemma ZerosPrefix(n: nat, s: string)
    requires IsBits(s)
    ensures IsBits(Zeros(n) + s)
    ensures BitsValue(Zeros(n) + s) == BitsValue(s)
  {
    BitsValueAppend(Zeros(n), s);
    ZerosValue(n);
  }

  /** `bin(v)[2:]`: the binary digits of v without leading zeros ("0" for 0). */
  function BinDigits(v: nat): (r: string)
    ensures |r| >= 1 && IsBits(r)
    decreases v
  {
    if v < 2 then (if v == 1 then "1" else "0")
    else BinDigits(v / 2) + (if v % 2 == 1 then "1" else "0")
  }

  lemma {:induction false} BinDigitsValue(v: nat)
    ensures BitsValue(BinDigits(v)) == v
    decreases v
  {
    if v >= 2 {
      BinDigitsValue(v / 2);
      var s := BinDigits(v);
      assert s[..|s| - 1] == BinDigits(v / 2);
    }
  }

  lemma {:induction false} BinDigitsLength(v: nat, w: nat)
    requires v < Pow2(w)
    ensures |BinDigits(v)| <= if w == 0 then 1 else w
    decreases v
  {
    if v >= 2 {
      assert w >= 2;
      assert v / 2 < Pow2(w - 1);
      BinDigitsLength(v / 2, w - 1);
    }
  }

  /** Python `format(v, '0{w}b')`: the binary digits, left-padded with
      zeros to at least w characters. */
  function FormatBin(v: nat, w: nat): (r: string)
    ensures IsBits(r)
  {
    var d := BinDigits(v);
    if |d| >= w then d else Zeros(w - |d|) + d
  }

  /** The formatted digits read back as v. */
  lemma FormatBinValue(v: nat, w: nat)
    ensures BitsValue(FormatBin(v, w)) == v
  {
    BinDigitsValue(v);
    var d := BinDigits(v);
    if |d| < w {
      var z := Zeros(w - |d|);
      ZerosPrefix(w - |d|, d);
      assert BitsValue(z + d) == v;
      assert FormatBin(v, w) == z + d;
    } else {
      assert FormatBin(v, w) == d;
    }
  }

  /** A value below 2^w takes exactly w characters (at least one). */
  lemma FormatBinWidth(v: nat, w: nat)
    requires v < Pow2(w) && w >= 1
    ensures |FormatBin(v, w)| == w
  {
    BinDigitsLength(v, w);
  }

  lemma FormatBinCorrect(v: nat, w: nat)
    ensures BitsValue(FormatBin(v, w)) == v
    ensures v < Pow2(w) && w >= 1 ==> |FormatBin(v, w)| == w
  {
    FormatBinValue(v, w);
    if v < Pow2(w) && w >= 1 {
      FormatBinWidth(v, w);
    }
  }

  lemma FormatZero(n: nat)
    requires n >= 1
    ensures FormatBin(0, n) == Zeros(n)
  {
    assert Zeros(n - 1) + "0" == Zeros(n);
  }

  /** The value of a single bit. */
  function BitOf(c: char): nat
  {
    if c == '1' then 1 else 0
  }

  /** Appending one bit to a non-zero value appends its digit. */
  lemma FormatBinShift(v: nat, c: char, w: nat)
    requires v >= 1 && (c == '0' || c == '1')
    ensures FormatBin(2 * v + BitOf(c), w + 1) == FormatBin(v, w) + [c]
  {
    var u := 2 * v + BitOf(c);
    assert u / 2 == v && u % 2 == BitOf(c);
    var d := BinDigits(v);
    assert BinDigits(u) == d + [c];
    if |d| < w {
      var z := Zeros(w - |d|);
      assert FormatBin(v, w) == z + d;
      assert FormatBin(u, w + 1) == z + (d + [c]);
      assert z + (d + [c]) == (z + d) + [c];
    } else {
      assert FormatBin(v, w) == d;
      assert FormatBin(u, w + 1) == d + [c];
    }
  }

  /** Appending one bit to zero: the bit after w zeros. */
  lemma FormatZeroShift(c: char, w: nat)
    requires c == '0' || c == '1'
    ensures FormatBin(BitOf(c), w + 1) == Zeros(w) + [c]
  {
    assert BinDigits(BitOf(c)) == [c];
    if w == 0 {
      assert Zeros(0) + [c] == [c];
    }
  }

  /** A bit string of width w >= 1 is what `format(int(s, 2), '0{w}b')`
      gives back. */
  lemma {:induction false} FormatBitsValue(s: string)
    requires IsBits(s) && |s| >= 1
    ensures FormatBin(BitsValue(s), |s|) == s
    decreases |s|
  {
    var c := s[|s| - 1];
    if |s| == 1 {
      assert BitsValue(s) == BitOf(c);
      FormatZeroShift(c, 0);
      assert s == Zeros(0) + [c];
    } else {
      var s' := s[..|s| - 1];
      assert s == s' + [c];
      FormatBitsValue(s');
      var v := BitsValue(s');
      assert BitsValue(s) == 2 * v + BitOf(c);
      if v == 0 {
        FormatZero(|s'|);
        FormatZeroShift(c, |s'|);
      } else {
        FormatBinShift(v, c, |s'|);
      }
    }
  }

  /** `s.ljust(w, '0')`: zeros appended up to width w, never truncated. */
  function PadRight(s: string, w: nat): (r: string)
    ensures |r| == if |s| >= w then |s| else w
    ensures r[..|s|] == s
    ensures forall k :: |s| <= k < |r| ==> r[k] == '0'
    ensures IsBits(s) ==> IsBits(r)
  {
    if |s| >= w then s else s + Zeros(w - |s|)
  }

  // ---------------------------------------------------------------------
  // Division (right shifts)

  lemma DivUnique(a: int, p: int, q: int, r: int)
    requires p > 0 && 0 <= r < p && a == p * q + r
    ensures a / p == q && a % p == r
  {
    var q' := a / p;
    var r' := a % p;
    assert a == p * q' + r';
    assert p * (q - q') == r' - r;
    if q > q' {
      MulAtLeast(p, q - q');
    } else if q < q' {
      MulAtLeast(p, q' - q);
    }
  }

  lemma {:induction false} MulAtLeast(p: int, t: int)
    requires p > 0 && t >= 1
    ensures p * t >= p
    decreases t
  {
    if t > 1 {
      MulAtLeast(p, t - 1);
      assert p * t == p * (t - 1) + p;
    }
  }

  lemma DivDiv(a: nat, b: nat, c: nat)
    requires b > 0 && c > 0
    ensures a / (b * c) == (a / b) / c
  {
    var q := a / (b * c);
    var r := a % (b * c);
    assert a == (b * c) * q + r;
    assert b * (c * q + r / b) + r % b == a by {
      assert r == b * (r / b) + r % b;
      assert (b * c) * q == b * (c * q);
    }
    DivUnique(a, b, c * q + r / b, r % b);
    assert r / b < c;
    DivUnique(a / b, c, q, r / b);
  }

  /** Shifting right by `k` places: `x >> k`, which on Python's integers
      is division by 2^k rounded towards minus infinity; Dafny's division
      by a positive number rounds the same way. */
  function Shr(x: int, k: nat): int
  {
    x / Pow2(k)
  }

  lemma ShrShr(x: nat, a: nat, b: nat)
    ensures Shr(Shr(x, a), b) == Shr(x, a + b)
  {
    Pow2Add(a, b);
    DivDiv(x, Pow2(a), Pow2(b));
  }
}
