/** Packing of the type chart into two 256-bit words (python/generate.py
    and its lenient twin src/types/generator.py) and the lookup of the
    generated Solidity `getTypeEffectiveness`. Rows are the CSV records
    after the header line. */
module TypePacking {
  import opened Text
  import opened PyNumbers
  import opened Binary

  /** python/generate.py rejects unknown multipliers; src/types/generator.py
      maps every unknown multiplier to the code of 5. */
  datatype Variant = Strict | Lenient

  /** The 2-bit code of a multiplier: 0, 1, 2, and 3 for the raw 5 (x0.5). */
  function Code(m: int): (c: nat)
    ensures c < 4
  {
    if m == 0 then 0 else if m == 1 then 1 else if m == 2 then 2 else 3
  }

  predicate Known(m: int)
  {
    m == 0 || m == 1 || m == 2 || m == 5
  }

  /** multiplier_to_bits; None is the ValueError of the strict variant. */
  function MultiplierToBits(variant: Variant, m: int): (r: Option<string>)
    ensures r.Some? <==> variant == Lenient || Known(m)
    ensures r.Some? ==> |r.value| == 2 && IsBits(r.value) && BitsValue(r.value) == Code(m)
  {
    if m == 0 then Some("00")
    else if m == 1 then Some("01")
    else if m == 2 then Some("10")
    else if variant == Lenient || m == 5 then Some("11")
    else None
  }

  /** What the loop does with one CSV record. */
  datatype RowOutcome = Skip | Entry(m: int) | Fail

  predicate BlankRow(row: seq<string>)
  {
    row == [] || forall k :: 0 <= k < |row| ==> Strip(row[k]) == ""
  }

  /** Empty records are skipped; a record that is not exactly three fields
      or whose multiplier is not an integer raises. */
  function Outcome(row: seq<string>): RowOutcome
  {
    if BlankRow(row) then Skip
    else if |row| != 3 then Fail
    else match PyInt(row[2]) case Some(m) => Entry(m) case None => Fail
  }

  /** The multipliers' codes of the records, in file order, or None when
      some record raises. */
  function Codes(rows: seq<seq<string>>, variant: Variant): (r: Option<seq<nat>>)
    ensures r.Some? ==> AllCodes(r.value)
  {
    if rows == [] then Some([])
    else match Codes(rows[..|rows| - 1], variant)
      case None => None
      case Some(c) => Extend(c, Outcome(rows[|rows| - 1]), variant)
  }

  predicate AllCodes(c: seq<nat>)
  {
    forall k :: 0 <= k < |c| ==> c[k] < 4
  }

  /** The codes after one more record. */
  function Extend(c: seq<nat>, o: RowOutcome, variant: Variant): (r: Option<seq<nat>>)
    requires AllCodes(c)
    ensures r.Some? ==> AllCodes(r.value)
  {
    match o
    case Skip => Some(c)
    case Fail => None
    case Entry(m) => if MultiplierToBits(variant, m).Some? then Some(c + [Code(m)]) else None
  }

  /** The bit string with the codes prepended one by one: the last code
      first, the first code in the two lowest bits. */
  function RevBits(c: seq<nat>): (r: string)
    requires AllCodes(c)
    ensures |r| == 2 * |c| && IsBits(r)
  {
    if c == [] then ""
    else FormatBin(c[|c| - 1], 2) + RevBits(c[..|c| - 1])
  }

  function Min(a: nat, b: nat): nat { if a < b then a else b }

  /** The two strings v1 and v2 the loop builds: v1 takes entries until it
      holds 256 bits (128 entries), v2 takes the rest. */
  function Strings(c: seq<nat>): (string, string)
    requires AllCodes(c)
  {
    var h := Min(|c|, 128);
    (RevBits(c[..h]), RevBits(c[h..]))
  }

  /** The pair returned by parse_csv_for_solidity: `int(v1, 2)` and
      `int('0' * 62 + v2, 2)`; `int('', 2)` raises when no entry was read. */
  function PackSpec(rows: seq<seq<string>>, variant: Variant): Option<(nat, nat)>
  {
    match Codes(rows, variant)
    case None => None
    case Some(c) =>
      var (v1, v2) := Strings(c);
      if v1 == "" then None else Some((BitsValue(v1), BitsValue(Zeros(62) + v2)))
  }

  lemma CodesStep(rows: seq<seq<string>>, i: nat, variant: Variant, c: seq<nat>)
    requires i < |rows| && Codes(rows[..i], variant) == Some(c)
    ensures AllCodes(c)
    ensures Codes(rows[..i + 1], variant) == Extend(c, Outcome(rows[i]), variant)
  {
    assert rows[..i + 1][..i] == rows[..i];
  }

  lemma {:induction false} CodesFailPersists(rows: seq<seq<string>>, i: nat, variant: Variant)
    requires i <= |rows| && Codes(rows[..i], variant) == None
    ensures Codes(rows, variant) == None
    decreases |rows| - i
  {
    if i < |rows| {
      assert rows[..i + 1][..i] == rows[..i];
      CodesFailPersists(rows, i + 1, variant);
    } else {
      assert rows[..i] == rows;
    }
  }

  lemma StringsStep(c: seq<nat>, x: nat)
    requires AllCodes(c)
    requires x < 4
    ensures var (v1, v2) := Strings(c);
      var b := FormatBin(x, 2);
      Strings(c + [x]) == if |v1| < 256 then (b + v1, v2) else (v1, b + v2)
  {
    var c' := c + [x];
    assert c'[..|c'| - 1] == c;
    if |c| < 128 {
      assert c'[..Min(|c'|, 128)] == c';
      assert c[..Min(|c|, 128)] == c;
      assert c'[Min(|c'|, 128)..] == [] && c[Min(|c|, 128)..] == [];
    } else {
      assert c'[..128] == c[..128];
      var r := c'[128..];
      assert r[..|r| - 1] == c[128..];
      assert r[|r| - 1] == x;
    }
  }

  /** parse_csv_for_solidity / parse_csv on the records after the header. */
  method ParseCsvForSolidity(rows: seq<seq<string>>, variant: Variant) returns (r: Option<(nat, nat)>)
    ensures r == PackSpec(rows, variant)
  {
    var v1 := "";
    var v2 := "";
    ghost var c: seq<nat> := [];
    for i := 0 to |rows|
      invariant Codes(rows[..i], variant) == Some(c)
      invariant AllCodes(c)
      invariant (v1, v2) == Strings(c)
    {
      CodesStep(rows, i, variant, c);
      var row := rows[i];
      if BlankRow(row) {
        continue;
      }
      if |row| != 3 {
        CodesFailPersists(rows, i + 1, variant);
        return None;
      }
      var m := PyInt(row[2]);
      if m.None? {
        CodesFailPersists(rows, i + 1, variant);
        return None;
      }
      assert Outcome(row) == Entry(m.value);
      var bits := MultiplierToBits(variant, m.value);
      if bits.None? {
        CodesFailPersists(rows, i + 1, variant);
        return None;
      }
      FormatBinCode(variant, m.value);
      StringsStep(c, Code(m.value));
      if |v1| < 256 {
        v1 := bits.value + v1;
      } else {
        v2 := bits.value + v2;
      }
      c := c + [Code(m.value)];
    }
    assert rows[..|rows|] == rows;
    v2 := Zeros(62) + v2;
    if v1 == "" {
      return None;
    }
    r := Some((BitsValue(v1), BitsValue(v2)));
  }

  lemma FormatBinCode(variant: Variant, m: int)
    requires MultiplierToBits(variant, m).Some?
    ensures MultiplierToBits(variant, m) == Some(FormatBin(Code(m), 2))
  {
    if m == 0 {
      assert BinDigits(0) == "0";
      assert Zeros(1) == "0";
      assert FormatBin(0, 2) == "0" + "0";
      assert "0" + "0" == "00";
    } else if m == 1 {
      assert BinDigits(1) == "1";
      assert Zeros(1) == "0";
      assert FormatBin(1, 2) == "0" + "1";
      assert "0" + "1" == "01";
    } else if m == 2 {
      assert BinDigits(2) == BinDigits(1) + "0";
      assert "1" + "0" == "10";
    } else {
      assert BinDigits(3) == BinDigits(1) + "1";
      assert "1" + "1" == "11";
    }
  }

  // ---------------------------------------------------------------------
  // Decoding

  /** The generated `getTypeEffectiveness`: index = a * 15 + d, then the
      code at bit 2 * index of the first word, or at 2 * (index - 128) of
      the second; `(m >> shift) & 3`. */
  function GetTypeEffectiveness(m1: nat, m2: nat, attacker: nat, defender: nat): (r: nat)
    ensures r < 4
  {
    var index := attacker * 15 + defender;
    if index < 128 then Shr(m1, index * 2) % 4 else Shr(m2, (index - 128) * 2) % 4
  }

  /** The number a sequence of codes stands for: code k times 4^k. */
  function Word(c: seq<nat>): nat
  {
    if c == [] then 0 else Word(c[..|c| - 1]) + c[|c| - 1] * Pow2(2 * (|c| - 1))
  }

  lemma {:induction false} RevBitsValue(c: seq<nat>)
    requires AllCodes(c)
    ensures BitsValue(RevBits(c)) == Word(c)
    decreases |c|
  {
    if c != [] {
      var c' := c[..|c| - 1];
      RevBitsValue(c');
      BitsValueAppend(FormatBin(c[|c| - 1], 2), RevBits(c'));
      FormatBinCorrect(c[|c| - 1], 2);
    }
  }

  lemma {:induction false} WordAppend(a: seq<nat>, b: seq<nat>)
    ensures Word(a + b) == Word(a) + Pow2(2 * |a|) * Word(b)
    decreases |b|
  {
    if b == [] {
      assert a + b == a;
    } else {
      var b' := b[..|b| - 1];
      var x := b[|b| - 1];
      assert (a + b)[..|a + b| - 1] == a + b';
      assert (a + b)[|a + b| - 1] == x;
      WordAppend(a, b');
      Pow2Add(2 * |a|, 2 * |b'|);
      var p, q := Pow2(2 * |a|), Pow2(2 * |b'|);
      var e := 2 * (|a + b| - 1);
      assert e == 2 * |a| + 2 * |b'|;
      assert Pow2(e) == p * q;
      assert Word(a + b) == Word(a + b') + x * Pow2(e);
      assert Word(b) == Word(b') + x * q;
      Distribute(p, Word(b'), x, q);
    }
  }

  lemma Distribute(p: int, w: int, x: int, q: int)
    ensures p * (w + x * q) == p * w + x * (p * q)
  {
    assert p * (w + x * q) == p * w + p * (x * q);
  }

  lemma {:induction false} WordBound(c: seq<nat>)
    requires AllCodes(c)
    ensures Word(c) < Pow2(2 * |c|)
    decreases |c|
  {
    if c != [] {
      var n := |c| - 1;
      WordBound(c[..n]);
      Pow2Add(2 * n, 2);
      assert Pow2(2) == 4;
      assert c[n] * Pow2(2 * n) <= 3 * Pow2(2 * n);
    }
  }

  lemma WordSingle(x: nat)
    ensures Word([x]) == x
  {
    assert [x][..0] == [];
  }

  lemma WordCons(x: nat, high: seq<nat>)
    ensures Word([x] + high) == x + 4 * Word(high)
  {
    WordAppend([x], high);
    WordSingle(x);
    assert Pow2(2) == 4;
  }

  /** A word splits at any position into its low part and the shifted
      high part. */
  lemma WordSplit(c: seq<nat>, k: nat)
    requires k <= |c|
    ensures Word(c) == Word(c[..k]) + Pow2(2 * k) * Word(c[k..])
  {
    assert c[..k] + c[k..] == c;
    WordAppend(c[..k], c[k..]);
  }

  /** Code k sits at bits 2k and 2k + 1 of the word. */
  lemma WordDecode(c: seq<nat>, k: nat)
    requires AllCodes(c)
    requires k < |c|
    ensures Shr(Word(c), 2 * k) % 4 == c[k]
  {
    WordSplit(c, k);
    WordBound(c[..k]);
    DivUnique(Word(c), Pow2(2 * k), Word(c[k..]), Word(c[..k]));
    assert c[k..] == [c[k]] + c[k + 1..];
    WordCons(c[k], c[k + 1..]);
    DivUnique(Word(c[k..]), 4, Word(c[k + 1..]), c[k]);
  }

  /** Decoding the two words of a code sequence at index i gives code i. */
  lemma DecodeCodes(c: seq<nat>, m1: nat, m2: nat, i: nat)
    requires AllCodes(c) && i < |c|
    requires m1 == Word(c[..Min(|c|, 128)]) && m2 == Word(c[Min(|c|, 128)..])
    ensures GetTypeEffectiveness(m1, m2, i / 15, i % 15) == c[i]
  {
    var h := Min(|c|, 128);
    assert (i / 15) * 15 + i % 15 == i;
    if i < 128 {
      WordDecode(c[..h], i);
    } else {
      WordDecode(c[h..], i - 128);
    }
  }

  /** The words returned are the codes' numbers. */
  lemma PackWords(rows: seq<seq<string>>, variant: Variant, m1: nat, m2: nat)
    requires PackSpec(rows, variant) == Some((m1, m2))
    ensures Codes(rows, variant).Some?
    ensures var c := Codes(rows, variant).value;
      m1 == Word(c[..Min(|c|, 128)]) && m2 == Word(c[Min(|c|, 128)..])
  {
    var c := Codes(rows, variant).value;
    var h := Min(|c|, 128);
    RevBitsValue(c[..h]);
    RevBitsValue(c[h..]);
    ZerosPrefix(62, RevBits(c[h..]));
  }

  /** The headline round trip: the i-th entry of the chart, looked up by
      the generated contract at attacker i / 15 and defender i % 15, gives
      back that entry's code. */
  lemma DecodeRoundTrip(rows: seq<seq<string>>, variant: Variant, m1: nat, m2: nat, i: nat)
    requires PackSpec(rows, variant) == Some((m1, m2))
    requires Codes(rows, variant).Some? && i < |Codes(rows, variant).value|
    ensures GetTypeEffectiveness(m1, m2, i / 15, i % 15) == Codes(rows, variant).value[i]
  {
    PackWords(rows, variant, m1, m2);
    DecodeCodes(Codes(rows, variant).value, m1, m2, i);
  }

  /** Each word fits in 256 bits when the chart has at most 256 entries
      (the 15 x 15 chart has 225). */
  lemma PackFits(rows: seq<seq<string>>, variant: Variant, m1: nat, m2: nat)
    requires PackSpec(rows, variant) == Some((m1, m2))
    requires Codes(rows, variant).Some? && |Codes(rows, variant).value| <= 256
    ensures m1 < Pow2(256) && m2 < Pow2(256)
  {
    var c := Codes(rows, variant).value;
    var h := Min(|c|, 128);
    PackWords(rows, variant, m1, m2);
    WordBound(c[..h]);
    WordBound(c[h..]);
    Pow2Monotone(2 * h, 256);
    Pow2Monotone(2 * (|c| - h), 256);
  }

  /** Prefixing v2 with 62 zeros leaves its value unchanged. */
  lemma PaddingKeepsValue(rows: seq<seq<string>>, variant: Variant, m1: nat, m2: nat)
    requires PackSpec(rows, variant) == Some((m1, m2))
    ensures Codes(rows, variant).Some?
    ensures m2 == BitsValue(Strings(Codes(rows, variant).value).1)
  {
    var c := Codes(rows, variant).value;
    ZerosPrefix(62, Strings(c).1);
  }

  /** Wherever the strict variant accepts a chart, the lenient one reads
      the same codes from it. */
  lemma {:induction false} VariantsAgree(rows: seq<seq<string>>)
    requires Codes(rows, Strict).Some?
    ensures Codes(rows, Lenient) == Codes(rows, Strict)
  {
    if rows != [] {
      VariantsAgree(rows[..|rows| - 1]);
    }
  }
}
