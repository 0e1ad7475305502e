/** Sprite compression of python/mini_to_svg.py: the first frame of a GIF,
    given here as its grid of RGBA pixels, is reduced to a sorted palette
    and a grid of palette indices, and the indices are packed row by row,
    most significant bit first, into 256-bit words. */
module Sprite {
  import opened Binary
  import opened Sorting

  datatype Color = Color(r: int, g: int, b: int, a: int)

  /** Colours compare as Python tuples do, component by component. */
  function ColorKey(c: Color): Key
  {
    Key.Word([c.r, c.g, c.b, c.a])
  }

  lemma ColorKeyInjective(c: Color, d: Color)
    requires ColorKey(c) == ColorKey(d)
    ensures c == d
  {
    assert [c.r, c.g, c.b, c.a][0] == [d.r, d.g, d.b, d.a][0];
    assert [c.r, c.g, c.b, c.a][1] == [d.r, d.g, d.b, d.a][1];
    assert [c.r, c.g, c.b, c.a][2] == [d.r, d.g, d.b, d.a][2];
    assert [c.r, c.g, c.b, c.a][3] == [d.r, d.g, d.b, d.a][3];
  }

  // ---------------------------------------------------------------------
  // Bits per pixel

  /** Python's `int.bit_length` on a non-negative number. */
  function BitLength(n: nat): nat
  {
    if n == 0 then 0 else 1 + BitLength(n / 2)
  }

  /** n needs exactly BitLength(n) binary digits. */
  lemma {:induction false} BitLengthBounds(n: nat)
    ensures n < Pow2(BitLength(n))
    ensures n >= 1 ==> Pow2(BitLength(n) - 1) <= n
    decreases n
  {
    if n > 0 {
      BitLengthBounds(n / 2);
    }
  }

  /** `max(1, (len(all_colors) - 1).bit_length())`; for no colours at all
      Python takes the bit length of -1, which is 1. */
  function BitsNeeded(colors: nat): nat
  {
    var m := colors - 1;
    var len := BitLength(if m < 0 then -m else m);
    if len > 1 then len else 1
  }

  /** At least one bit; enough bits for every palette index; and no more
      than needed once there are two colours or more. */
  lemma BitsNeededFits(colors: nat)
    ensures BitsNeeded(colors) >= 1
    ensures colors <= Pow2(BitsNeeded(colors))
    ensures colors >= 2 ==> Pow2(BitsNeeded(colors) - 1) < colors
  {
    if colors >= 1 {
      BitLengthBounds(colors - 1);
      if BitLength(colors - 1) <= 1 {
        Pow2Monotone(BitLength(colors - 1), 1);
      }
    }
  }

  // ---------------------------------------------------------------------
  // Palette and indexed frame

  /** The set of all colours of the frame (the loop over its pixels). */
  method CollectColors(frame: array2<Color>) returns (colors: set<Color>)
    ensures forall c :: c in colors <==>
      exists y, x :: 0 <= y < frame.Length0 && 0 <= x < frame.Length1 && frame[y, x] == c
  {
    var height, width := frame.Length0, frame.Length1;
    colors := {};
    for y := 0 to height
      invariant forall c :: c in colors <==>
        exists y', x' :: 0 <= y' < y && 0 <= x' < width && frame[y', x'] == c
    {
      for x := 0 to width
        invariant forall c :: c in colors <==>
          (exists y', x' :: 0 <= y' < y && 0 <= x' < width && frame[y', x'] == c)
          || (exists x' :: 0 <= x' < x && frame[y, x'] == c)
      {
        colors := colors + {frame[y, x]};
      }
    }
  }

  /** The indexed frame: each pixel replaced by its colour's position in
      the palette (`color_to_index[color]`). */
  method IndexFrame(frame: array2<Color>, palette: seq<Color>) returns (indexed: array2<nat>)
    requires Distinct(palette)
    requires forall y, x :: 0 <= y < frame.Length0 && 0 <= x < frame.Length1 ==> frame[y, x] in palette
    ensures fresh(indexed) && indexed.Length0 == frame.Length0 && indexed.Length1 == frame.Length1
    ensures forall y, x :: 0 <= y < frame.Length0 && 0 <= x < frame.Length1 ==>
      indexed[y, x] < |palette| && palette[indexed[y, x]] == frame[y, x]
  {
    var colorToIndex := map i | 0 <= i < |palette| :: palette[i] := i;
    assert forall k :: 0 <= k < |palette| ==> palette[k] in colorToIndex && colorToIndex[palette[k]] == k;
    indexed := new nat[frame.Length0, frame.Length1];
    for y := 0 to frame.Length0
      invariant forall y', x' :: 0 <= y' < y && 0 <= x' < frame.Length1 ==>
        indexed[y', x'] < |palette| && palette[indexed[y', x']] == frame[y', x']
    {
      IndexRow(frame, palette, colorToIndex, indexed, y);
    }
  }

  predicate Distinct(palette: seq<Color>)
  {
    forall i, j :: 0 <= i < |palette| && 0 <= j < |palette| && i != j ==> palette[i] != palette[j]
  }

  /** The inner loop of the indexing over row y; the other rows are left alone. */
  method IndexRow(frame: array2<Color>, palette: seq<Color>, colorToIndex: map<Color, nat>,
                  indexed: array2<nat>, y: nat)
    requires forall k :: 0 <= k < |palette| ==> palette[k] in colorToIndex && colorToIndex[palette[k]] == k
    requires y < frame.Length0 && indexed.Length0 == frame.Length0 && indexed.Length1 == frame.Length1
    requires forall x :: 0 <= x < frame.Length1 ==> frame[y, x] in palette
    modifies indexed
    ensures forall y', x' :: 0 <= y' < indexed.Length0 && 0 <= x' < indexed.Length1 && y' != y ==>
      indexed[y', x'] == old(indexed[y', x'])
    ensures forall x :: 0 <= x < frame.Length1 ==>
      indexed[y, x] < |palette| && palette[indexed[y, x]] == frame[y, x]
  {
    for x := 0 to frame.Length1
      invariant forall y', x' :: 0 <= y' < indexed.Length0 && 0 <= x' < indexed.Length1 && y' != y ==>
        indexed[y', x'] == old(indexed[y', x'])
      invariant forall x' :: 0 <= x' < x ==>
        indexed[y, x'] < |palette| && palette[indexed[y, x']] == frame[y, x']
    {
      var color := frame[y, x];
      var k :| 0 <= k < |palette| && palette[k] == color;
      indexed[y, x] := colorToIndex[color];
    }
  }

  /** The colour set, palette and indexed frame computed by analyze_gif
      for the first frame. */
  method AnalyzeFrame(frame: array2<Color>)
    returns (colors: set<Color>, bitsNeeded: nat, palette: seq<Color>, indexed: array2<nat>)
    ensures forall c :: c in colors <==>
      exists y, x :: 0 <= y < frame.Length0 && 0 <= x < frame.Length1 && frame[y, x] == c
    ensures bitsNeeded == BitsNeeded(|colors|)
    ensures |palette| == |colors| && forall c :: c in palette <==> c in colors
    ensures forall i, j :: 0 <= i < j < |palette| ==> Less(ColorKey(palette[i]), ColorKey(palette[j]))
    ensures fresh(indexed) && indexed.Length0 == frame.Length0 && indexed.Length1 == frame.Length1
    ensures forall y, x :: 0 <= y < frame.Length0 && 0 <= x < frame.Length1 ==>
      indexed[y, x] < |palette| && palette[indexed[y, x]] == frame[y, x]
  {
    colors := CollectColors(frame);
    bitsNeeded := BitsNeeded(|colors|);
    forall c, d | c in colors && d in colors && ColorKey(c) == ColorKey(d)
      ensures c == d
    {
      ColorKeyInjective(c, d);
    }
    palette := SortedSet(colors, ColorKey);
    PaletteDistinct(palette);
    indexed := IndexFrame(frame, palette);
  }

  lemma PaletteDistinct(palette: seq<Color>)
    requires forall i, j :: 0 <= i < j < |palette| ==> Less(ColorKey(palette[i]), ColorKey(palette[j]))
    ensures Distinct(palette)
  {
    forall i, j | 0 <= i < |palette| && 0 <= j < |palette| && i != j
      ensures palette[i] != palette[j]
    {
      if i < j {
        LessStrictTotal(ColorKey(palette[i]), ColorKey(palette[j]), ColorKey(palette[i]));
      } else {
        LessStrictTotal(ColorKey(palette[j]), ColorKey(palette[i]), ColorKey(palette[j]));
      }
    }
  }

  // ---------------------------------------------------------------------
  // Packing

  /** Row y of a grid. */
  function Row(a: array2<nat>, y: nat): (r: seq<nat>)
    requires y < a.Length0
    reads a
    ensures |r| == a.Length1 && forall x :: 0 <= x < a.Length1 ==> r[x] == a[y, x]
  {
    seq(a.Length1, x requires 0 <= x < a.Length1 reads a => a[y, x])
  }

  /** The first n rows of a grid, one after the other. */
  function Rows(a: array2<nat>, n: nat): (r: seq<nat>)
    requires n <= a.Length0
    reads a
  {
    if n == 0 then [] else Rows(a, n - 1) + Row(a, n - 1)
  }

  /** The pixels in row-major order. */
  function RowMajor(a: array2<nat>): seq<nat>
    reads a
  {
    Rows(a, a.Length0)
  }

  /** Pixel (y, x) is entry y * width + x of the row-major order. */
  lemma {:induction false} RowsIndex(a: array2<nat>, n: nat, y: nat, x: nat)
    requires n <= a.Length0 && y < n && x < a.Length1
    ensures |Rows(a, n)| == n * a.Length1
    ensures y * a.Length1 + x < |Rows(a, n)| && Rows(a, n)[y * a.Length1 + x] == a[y, x]
    decreases n
  {
    RowsLength(a, n - 1);
    if y < n - 1 {
      RowsIndex(a, n - 1, y, x);
    } else {
      assert y * a.Length1 == (n - 1) * a.Length1;
    }
  }

  lemma {:induction false} RowsLength(a: array2<nat>, n: nat)
    requires n <= a.Length0
    ensures |Rows(a, n)| == n * a.Length1
    decreases n
  {
    if n > 0 {
      RowsLength(a, n - 1);
    }
  }

  /** The bit string of the pixel values, each `format(v, '0{bpp}b')`. */
  function Encode(p: seq<nat>, bpp: nat): (r: string)
    ensures IsBits(r)
  {
    if p == [] then "" else Encode(p[..|p| - 1], bpp) + FormatBin(p[|p| - 1], bpp)
  }

  /** The 256-bit words of a bit string: consecutive 256-bit slices, the
      last one padded on the right with zeros. */
  function Chunks(bits: string): (r: seq<nat>)
    requires IsBits(bits)
    decreases |bits|
  {
    if bits == [] then []
    else
      var n := if |bits| < 256 then |bits| else 256;
      [BitsValue(PadRight(bits[..n], 256))] + Chunks(bits[n..])
  }

  function Rest(bits: string, i: nat): (r: string)
    ensures IsBits(bits) ==> IsBits(r)
  {
    if i <= |bits| then bits[i..] else ""
  }

  lemma EncodeStep(p: seq<nat>, v: nat, bpp: nat)
    ensures Encode(p + [v], bpp) == Encode(p, bpp) + FormatBin(v, bpp)
  {
    assert (p + [v])[..|p|] == p;
  }

  lemma RowStep(a: array2<nat>, y: nat, x: nat)
    requires y < a.Length0 && x < a.Length1
    ensures Rows(a, y) + Row(a, y)[..x + 1] == (Rows(a, y) + Row(a, y)[..x]) + [a[y, x]]
  {
  }

  lemma RowDone(a: array2<nat>, y: nat)
    requires y < a.Length0
    ensures Rows(a, y) + Row(a, y)[..a.Length1] == Rows(a, y + 1)
  {
    assert Row(a, y)[..a.Length1] == Row(a, y);
  }

  /** compress_to_uint256: the pixels' bit string in row-major order,
      cut into 256-bit words. */
  method CompressToUint256(indexed: array2<nat>, bitsPerPixel: nat) returns (values: seq<nat>)
    ensures values == Chunks(Encode(RowMajor(indexed), bitsPerPixel))
  {
    var bitString := EncodePixels(indexed, bitsPerPixel);
    values := PackWords(bitString);
  }

  /** The first loop of compress_to_uint256: every pixel formatted with
      `bitsPerPixel` binary digits, row by row. */
  method EncodePixels(indexed: array2<nat>, bitsPerPixel: nat) returns (bitString: string)
    ensures bitString == Encode(RowMajor(indexed), bitsPerPixel)
  {
    bitString := "";
    for y := 0 to indexed.Length0
      invariant bitString == Encode(Rows(indexed, y), bitsPerPixel)
    {
      bitString := EncodeRow(indexed, y, bitsPerPixel, bitString);
    }
  }

  /** The inner loop over one row. */
  method EncodeRow(indexed: array2<nat>, y: nat, bitsPerPixel: nat, start: string) returns (bitString: string)
    requires y < indexed.Length0
    requires start == Encode(Rows(indexed, y), bitsPerPixel)
    ensures bitString == Encode(Rows(indexed, y + 1), bitsPerPixel)
  {
    bitString := start;
    assert Rows(indexed, y) + Row(indexed, y)[..0] == Rows(indexed, y);
    for x := 0 to indexed.Length1
      invariant bitString == Encode(Rows(indexed, y) + Row(indexed, y)[..x], bitsPerPixel)
    {
      var pixelValue := indexed[y, x];
      EncodeStep(Rows(indexed, y) + Row(indexed, y)[..x], pixelValue, bitsPerPixel);
      RowStep(indexed, y, x);
      bitString := bitString + FormatBin(pixelValue, bitsPerPixel);
    }
    RowDone(indexed, y);
  }

  /** The second loop of compress_to_uint256: 256-bit slices, the last
      one padded with zeros, each read as a binary number. */
  method PackWords(bitString: string) returns (values: seq<nat>)
    requires IsBits(bitString)
    ensures values == Chunks(bitString)
  {
    values := [];
    var i := 0;
    while i < |bitString|
      invariant values + Chunks(Rest(bitString, i)) == Chunks(bitString)
      decreases |bitString| - i
    {
      var end := if i + 256 <= |bitString| then i + 256 else |bitString|;
      var chunk := bitString[i..end];
      SliceBits(bitString, i, end);
      chunk := PadRight(chunk, 256);
      var uintValue := BitsValue(chunk);
      PackStep(bitString, i, values);
      values := values + [uintValue];
      i := i + 256;
    }
    assert Rest(bitString, i) == "";
  }

  lemma SliceBits(bits: string, i: int, j: int)
    requires IsBits(bits) && 0 <= i <= j <= |bits|
    ensures IsBits(bits[i..j])
  {
    assert forall k :: 0 <= k < j - i ==> bits[i..j][k] == bits[i + k];
  }

  /** The word taken at offset i. */
  function WordAt(bits: string, i: nat): nat
    requires IsBits(bits) && i < |bits|
  {
    var end := if i + 256 <= |bits| then i + 256 else |bits|;
    BitsValue(PadRight(bits[i..end], 256))
  }

  lemma PackStep(bits: string, i: nat, values: seq<nat>)
    requires IsBits(bits) && i < |bits|
    requires values + Chunks(Rest(bits, i)) == Chunks(bits)
    ensures (values + [WordAt(bits, i)]) + Chunks(Rest(bits, i + 256)) == Chunks(bits)
  {
    ChunksStep(bits, i);
    AppendAssoc(values, WordAt(bits, i), Chunks(Rest(bits, i + 256)));
  }

  lemma AppendAssoc(a: seq<nat>, w: nat, b: seq<nat>)
    ensures (a + [w]) + b == a + ([w] + b)
  {
  }

  lemma ChunksStep(bits: string, i: nat)
    requires IsBits(bits) && i < |bits|
    ensures Chunks(Rest(bits, i)) == [WordAt(bits, i)] + Chunks(Rest(bits, i + 256))
  {
    var end := if i + 256 <= |bits| then i + 256 else |bits|;
    var rest := bits[i..];
    assert rest[..end - i] == bits[i..end];
    if i + 256 <= |bits| {
      assert rest[end - i..] == bits[i + 256..];
    } else {
      assert rest[end - i..] == "";
    }
  }

  // ---------------------------------------------------------------------
  // Properties of the packing

  /** ceil(|bits| / 256) words, each below 2^256. */
  lemma ChunksShape(bits: string)
    requires IsBits(bits)
    ensures |Chunks(bits)| == (|bits| + 255) / 256
    ensures forall k :: 0 <= k < |Chunks(bits)| ==> Chunks(bits)[k] < Pow2(256)
  {
    ChunksCount(bits);
    ChunksBound(bits);
  }

  lemma {:induction false} ChunksCount(bits: string)
    requires IsBits(bits)
    ensures |Chunks(bits)| == (|bits| + 255) / 256
    decreases |bits|
  {
    if bits != [] {
      var n := if |bits| < 256 then |bits| else 256;
      ChunksCount(bits[n..]);
      CeilStep(|bits|, n);
    }
  }

  lemma CeilStep(len: nat, n: nat)
    requires len > 0 && n == (if len < 256 then len else 256)
    ensures (len + 255) / 256 == 1 + (len - n + 255) / 256
  {
  }

  lemma {:induction false} ChunksBound(bits: string)
    requires IsBits(bits)
    ensures AllWords(Chunks(bits))
    decreases |bits|
  {
    if bits != [] {
      var n := if |bits| < 256 then |bits| else 256;
      var chunk := PadRight(bits[..n], 256);
      ChunksBound(bits[n..]);
      BitsValueBound(chunk);
      WordsCons(BitsValue(chunk), Chunks(bits[n..]));
    }
  }

  /** Every value is a 256-bit word. */
  predicate AllWords(values: seq<nat>)
  {
    forall k :: 0 <= k < |values| ==> values[k] < Pow2(256)
  }

  lemma WordsCons(w: nat, rest: seq<nat>)
    requires w < Pow2(256) && AllWords(rest)
    ensures AllWords([w] + rest)
  {
  }

  /** The words written out again as 256-bit strings. */
  function ChunkBits(values: seq<nat>): string
  {
    if values == [] then "" else FormatBin(values[0], 256) + ChunkBits(values[1..])
  }

  /** Writing the words back out gives the bit string followed by the
      padding zeros of the last word, and nothing else. */
  lemma {:induction false} ChunkBitsOfChunks(bits: string)
    requires IsBits(bits)
    ensures ChunkBits(Chunks(bits)) == PadRight(bits, 256 * |Chunks(bits)|)
    decreases |bits|
  {
    if bits != [] {
      var n := if |bits| < 256 then |bits| else 256;
      var chunk := PadRight(bits[..n], 256);
      FormatBitsValue(chunk);
      ChunkBitsOfChunks(bits[n..]);
      var c := Chunks(bits);
      assert c[1..] == Chunks(bits[n..]);
      if n < 256 {
        assert bits[n..] == [];
        assert ChunkBits(c) == chunk;
      } else {
        ChunksCover(bits[n..]);
        PadConcat(bits[..n], bits[n..], 256 * |c[1..]|);
        assert bits[..n] + bits[n..] == bits;
      }
    }
  }

  lemma {:induction false} ChunksCover(bits: string)
    requires IsBits(bits)
    ensures 256 * |Chunks(bits)| >= |bits|
    decreases |bits|
  {
    if bits != [] {
      var n := if |bits| < 256 then |bits| else 256;
      ChunksCover(bits[n..]);
    }
  }

  lemma PadConcat(a: string, b: string, w: nat)
    requires w >= |b|
    ensures a + PadRight(b, w) == PadRight(a + b, |a| + w)
  {
  }

  /** Pixel k's bits sit at offset k * bpp and read back as its value. */
  lemma {:induction false} EncodeSlice(p: seq<nat>, bpp: nat, k: nat)
    requires bpp >= 1 && Fits(p, bpp)
    requires k < |p|
    ensures |Encode(p, bpp)| == |p| * bpp
    ensures 0 <= k * bpp <= (k + 1) * bpp <= |Encode(p, bpp)|
    ensures Encode(p, bpp)[k * bpp..(k + 1) * bpp] == FormatBin(p[k], bpp)
    decreases |p|
  {
    EncodeLength(p, bpp);
    MulSucc(k, bpp);
    MulMono(k + 1, |p|, bpp);
    if k == |p| - 1 {
      EncodeSliceLast(p, bpp);
    } else {
      EncodeSliceEarlier(p, bpp, k);
    }
  }

  lemma EncodeSliceLast(p: seq<nat>, bpp: nat)
    requires bpp >= 1 && Fits(p, bpp) && p != []
    ensures |Encode(p, bpp)| == |p| * bpp
    ensures 0 <= (|p| - 1) * bpp <= |p| * bpp
    ensures Encode(p, bpp)[(|p| - 1) * bpp..|p| * bpp] == FormatBin(p[|p| - 1], bpp)
  {
    var p' := p[..|p| - 1];
    var v := p[|p| - 1];
    assert Fits(p', bpp);
    EncodeLength(p, bpp);
    EncodeLength(p', bpp);
    FormatBinCorrect(v, bpp);
    MulSucc(|p'|, bpp);
    SliceAt(Encode(p, bpp), Encode(p', bpp), FormatBin(v, bpp), (|p| - 1) * bpp, |p| * bpp);
  }

  lemma SliceAt(e: string, a: string, b: string, i: int, j: int)
    requires e == a + b && i == |a| && j == |a| + |b|
    ensures e[i..j] == b
  {
  }

  lemma EncodeSliceEarlier(p: seq<nat>, bpp: nat, k: nat)
    requires bpp >= 1 && Fits(p, bpp) && k < |p| - 1
    ensures 0 <= k * bpp <= (k + 1) * bpp <= |Encode(p[..|p| - 1], bpp)|
    ensures Encode(p, bpp)[k * bpp..(k + 1) * bpp] == FormatBin(p[k], bpp)
    decreases |p|, 0
  {
    var p' := p[..|p| - 1];
    var v := p[|p| - 1];
    assert Fits(p', bpp);
    var e', f := Encode(p', bpp), FormatBin(v, bpp);
    assert Encode(p, bpp) == e' + f;
    EncodeSlice(p', bpp, k);
    assert 0 <= k * bpp <= (k + 1) * bpp by {
      MulSucc(k, bpp);
    }
    SliceLeft(e', f, k * bpp, (k + 1) * bpp);
  }

  lemma SliceLeft(a: string, b: string, i: int, j: int)
    requires 0 <= i <= j <= |a|
    ensures (a + b)[i..j] == a[i..j]
  {
  }

  lemma SliceRight(a: string, b: string)
    ensures (a + b)[|a|..|a| + |b|] == b
  {
  }

  lemma MulMono(a: nat, b: nat, c: nat)
    requires a <= b
    ensures a * c <= b * c
  {
  }

  /** Every pixel value fits in bpp bits. */
  predicate Fits(p: seq<nat>, bpp: nat)
  {
    forall i :: 0 <= i < |p| ==> p[i] < Pow2(bpp)
  }

  lemma {:induction false} EncodeLength(p: seq<nat>, bpp: nat)
    requires bpp >= 1 && Fits(p, bpp)
    ensures |Encode(p, bpp)| == |p| * bpp
    decreases |p|
  {
    if p != [] {
      var p' := p[..|p| - 1];
      var v := p[|p| - 1];
      assert Fits(p', bpp);
      EncodeLength(p', bpp);
      FormatBinCorrect(v, bpp);
      assert |Encode(p, bpp)| == |Encode(p', bpp)| + |FormatBin(v, bpp)|;
      MulSucc(|p'|, bpp);
    }
  }

  lemma MulSucc(a: nat, b: nat)
    ensures (a + 1) * b == a * b + b && a * b >= 0
  {
  }

  /** Reading n values of bpp bits each from the front of a bit string. */
  function Decode(bits: string, bpp: nat, n: nat): (r: seq<nat>)
    requires IsBits(bits) && n * bpp <= |bits|
    ensures |r| == n
  {
    seq(n, k requires 0 <= k < n => DecodeAt(bits, bpp, k, n))
  }

  function DecodeAt(bits: string, bpp: nat, k: nat, n: nat): nat
    requires IsBits(bits) && n * bpp <= |bits| && k < n
  {
    MulMono(k + 1, n, bpp);
    BitsValue(bits[k * bpp..(k + 1) * bpp])
  }

  /** Unpacking: the words written back out, then cut into bpp-bit values. */
  function Unpack(values: seq<nat>, bpp: nat, n: nat): (r: seq<nat>)
    requires n * bpp <= |ChunkBits(values)|
    ensures |r| == n
  {
    ChunkBitsAreBits(values);
    Decode(ChunkBits(values), bpp, n)
  }

  lemma {:induction false} ChunkBitsAreBits(values: seq<nat>)
    ensures IsBits(ChunkBits(values))
    decreases |values|
  {
    if values != [] {
      ChunkBitsAreBits(values[1..]);
    }
  }

  /** When every pixel value fits in bpp >= 1 bits, unpacking the words
      recovers the pixels. */
  lemma PackRoundTrip(p: seq<nat>, bpp: nat)
    requires bpp >= 1 && Fits(p, bpp)
    ensures |p| * bpp <= |ChunkBits(Chunks(Encode(p, bpp)))|
    ensures Unpack(Chunks(Encode(p, bpp)), bpp, |p|) == p
  {
    var bits := Encode(p, bpp);
    EncodeLength(p, bpp);
    ChunkBitsOfChunks(bits);
    ChunkBitsAreBits(Chunks(bits));
    var all := ChunkBits(Chunks(bits));
    assert all[..|bits|] == bits;
    DecodePrefix(p, bpp, all);
  }

  /** Cutting any bit string that starts with Encode(p) into |p| values
      gives back p. */
  lemma DecodePrefix(p: seq<nat>, bpp: nat, all: string)
    requires bpp >= 1 && Fits(p, bpp) && IsBits(all)
    requires |Encode(p, bpp)| <= |all| && all[..|Encode(p, bpp)|] == Encode(p, bpp)
    ensures |p| * bpp <= |all|
    ensures Decode(all, bpp, |p|) == p
  {
    EncodeLength(p, bpp);
    var r := Decode(all, bpp, |p|);
    forall k | 0 <= k < |p|
      ensures r[k] == p[k]
    {
      DecodeOne(p, bpp, all, k);
    }
  }

  lemma DecodeOne(p: seq<nat>, bpp: nat, all: string, k: nat)
    requires bpp >= 1 && Fits(p, bpp) && IsBits(all) && k < |p|
    requires |Encode(p, bpp)| <= |all| && all[..|Encode(p, bpp)|] == Encode(p, bpp)
    ensures |p| * bpp <= |all|
    ensures DecodeAt(all, bpp, k, |p|) == p[k]
  {
    var bits := Encode(p, bpp);
    var lo, hi := k * bpp, (k + 1) * bpp;
    MulSucc(k, bpp);
    EncodeSlice(p, bpp, k);
    SlicePrefix(all, bits, lo, hi);
    FormatBinCorrect(p[k], bpp);
    assert DecodeAt(all, bpp, k, |p|) == BitsValue(all[lo..hi]);
  }

  lemma SlicePrefix(all: string, bits: string, lo: int, hi: int)
    requires |bits| <= |all| && all[..|bits|] == bits && 0 <= lo <= hi <= |bits|
    ensures all[lo..hi] == bits[lo..hi]
  {
    forall i | 0 <= i < hi - lo
      ensures all[lo..hi][i] == bits[lo..hi][i]
    {
      assert all[lo + i] == all[..|bits|][lo + i];
    }
    assert |all[lo..hi]| == |bits[lo..hi]|;
  }

  /** The end-to-end sprite property: packing the indexed frame with the
      computed bits per pixel and unpacking it gives back the indices, so
      the palette gives back every pixel's colour. */
  lemma SpriteRoundTrip(p: seq<nat>, colors: nat)
    requires forall i :: 0 <= i < |p| ==> p[i] < colors
    ensures |p| * BitsNeeded(colors) <= |ChunkBits(Chunks(Encode(p, BitsNeeded(colors))))|
    ensures Unpack(Chunks(Encode(p, BitsNeeded(colors))), BitsNeeded(colors), |p|) == p
  {
    var bpp := BitsNeeded(colors);
    BitsNeededFits(colors);
    assert Fits(p, bpp);
    PackRoundTrip(p, bpp);
  }

  /** Pixel (y, x) of the indexed frame is value y * width + x of the
      packed order. */
  lemma RowMajorIndex(a: array2<nat>, y: nat, x: nat)
    requires y < a.Length0 && x < a.Length1
    ensures |RowMajor(a)| == a.Length0 * a.Length1
    ensures y * a.Length1 + x < |RowMajor(a)| && RowMajor(a)[y * a.Length1 + x] == a[y, x]
  {
    RowsIndex(a, a.Length0, y, x);
  }

  /** Pixel (y, x), entry k = y * width + x of the row-major order,
      occupies bits k * bpp onwards of the packed bit string, most
      significant bit first. */
  lemma PixelOffset(a: array2<nat>, bpp: nat, y: nat, x: nat, k: nat)
    requires y < a.Length0 && x < a.Length1 && k == y * a.Length1 + x
    requires bpp >= 1 && Fits(RowMajor(a), bpp)
    ensures 0 <= k * bpp <= (k + 1) * bpp <= |Encode(RowMajor(a), bpp)|
    ensures Encode(RowMajor(a), bpp)[k * bpp..(k + 1) * bpp] == FormatBin(a[y, x], bpp)
  {
    var p := RowMajor(a);
    RowMajorIndex(a, y, x);
    var v := p[k];
    assert v == a[y, x];
    EncodeSlice(p, bpp, k);
  }
}
