/**
 * Straight-alpha to premultiplied-alpha conversion of 32-bit ARGB samples
 * (`draw_surface_from_data`). A sample is packed as A:8 R:8 G:8 B:8, alpha
 * in the top byte.
 */
module Pixels {
  import opened Words

  function Alpha(p: Word): Byte { p / 0x100_0000 }
  function Red(p: Word): Byte { p / 0x1_0000 % 0x100 }
  function Green(p: Word): Byte { p / 0x100 % 0x100 }
  function Blue(p: Word): Byte { p % 0x100 }

  /** Division by 2^8 is determined by any quotient and remainder that fit. */
  lemma DivModByte(x: int, q: int, m: int)
    requires 0 <= m < 0x100 && x == q * 0x100 + m
    ensures x / 0x100 == q && x % 0x100 == m
  {
  }

  /** Division by 2^16 is determined by any quotient and remainder that fit. */
  lemma DivModShort(x: int, q: int, m: int)
    requires 0 <= m < 0x1_0000 && x == q * 0x1_0000 + m
    ensures x / 0x1_0000 == q && x % 0x1_0000 == m
  {
  }

  /** Division by 2^24 is determined by any quotient and remainder that fit. */
  lemma DivModTriple(x: int, q: int, m: int)
    requires 0 <= m < 0x100_0000 && x == q * 0x100_0000 + m
    ensures x / 0x100_0000 == q && x % 0x100_0000 == m
  {
  }

  /**
   * `(a << 24) | (r << 16) | (g << 8) | b`: the four bytes occupy disjoint
   * bit ranges, so the bitwise or is their weighted sum.
   */
  function Pack(a: Byte, r: Byte, g: Byte, b: Byte): (p: Word)
    ensures Alpha(p) == a && Red(p) == r && Green(p) == g && Blue(p) == b
  {
    var p := a * 0x100_0000 + r * 0x1_0000 + g * 0x100 + b;
    DivModTriple(p, a, r * 0x1_0000 + g * 0x100 + b);
    DivModShort(p, a * 0x100 + r, g * 0x100 + b);
    DivModByte(a * 0x100 + r, a, r);
    DivModByte(p, a * 0x1_0000 + r * 0x100 + g, b);
    DivModByte(a * 0x1_0000 + r * 0x100 + g, a * 0x100 + r, g);
    p
  }

  /** Unpacking a sample into its four bytes and packing them again gives it back. */
  lemma PackOfChannels(p: Word)
    ensures Pack(Alpha(p), Red(p), Green(p), Blue(p)) == p
  {
    var lo := p % 0x100_0000;
    var mid := lo % 0x1_0000;
    var a, r, g, b := p / 0x100_0000, lo / 0x1_0000, mid / 0x100, mid % 0x100;
    assert p == a * 0x100_0000 + lo;
    assert lo == r * 0x1_0000 + mid;
    assert mid == g * 0x100 + b;
    assert p == Pack(a, r, g, b);
  }

  /**
   * What the C code guarantees of `c * (a / 255.0)` truncated to `uint8_t`:
   * the exact floating-point value is not modelled, only that scaling never
   * brightens a channel, that `255 / 255.0` is exactly 1.0 and that alpha 0
   * gives 0.
   */
  ghost predicate ScaleFacts(scale: (Byte, Byte) -> Byte) {
    forall c: Byte, a: Byte {:trigger scale(c, a)} ::
      && scale(c, a) <= c
      && (a == 255 ==> scale(c, a) == c)
      && (a == 0 ==> scale(c, a) == 0)
  }

  /**
   * One scaling that meets the facts (integer multiply, then divide
   * truncating), so they are not contradictory. It is not claimed to equal
   * the source's floating-point result.
   */
  function TruncatedScale(c: Byte, a: Byte): (s: Byte)
    ensures s <= c
  {
    ProductAtMost(c, a);
    c * a / 255
  }

  lemma ProductAtMost(c: nat, a: nat)
    requires a <= 255
    ensures c * a <= c * 255
  {
    var d: nat := 255 - a;
    assert c * 255 == c * a + c * d;
  }

  lemma ScaleFactsSatisfiable()
    ensures ScaleFacts(TruncatedScale)
  {
  }

  /** The facts about the scaling, at one channel value and one alpha. */
  lemma ScaleAt(scale: (Byte, Byte) -> Byte, c: Byte, a: Byte)
    requires ScaleFacts(scale)
    ensures scale(c, a) <= c
    ensures a == 255 ==> scale(c, a) == c
    ensures a == 0 ==> scale(c, a) == 0
  {
  }

  /** Premultiplying one sample: each colour byte is scaled by alpha / 255, alpha is kept. */
  function PremultiplySample(p: Word, scale: (Byte, Byte) -> Byte): (q: Word)
    ensures Alpha(q) == Alpha(p)
  {
    var a := Alpha(p);
    Pack(a, scale(Red(p), a), scale(Green(p), a), scale(Blue(p), a))
  }

  /** Premultiplying keeps alpha and never raises a colour byte. */
  lemma SampleChannels(p: Word, scale: (Byte, Byte) -> Byte)
    requires ScaleFacts(scale)
    ensures Alpha(PremultiplySample(p, scale)) == Alpha(p)
    ensures Red(PremultiplySample(p, scale)) <= Red(p)
    ensures Green(PremultiplySample(p, scale)) <= Green(p)
    ensures Blue(PremultiplySample(p, scale)) <= Blue(p)
  {
    var a := Alpha(p);
    ScaleAt(scale, Red(p), a);
    ScaleAt(scale, Green(p), a);
    ScaleAt(scale, Blue(p), a);
  }

  /** A fully opaque sample is left bit-for-bit unchanged. */
  lemma SampleOpaque(p: Word, scale: (Byte, Byte) -> Byte)
    requires ScaleFacts(scale) && Alpha(p) == 255
    ensures PremultiplySample(p, scale) == p
  {
    ScaleAt(scale, Red(p), 255);
    ScaleAt(scale, Green(p), 255);
    ScaleAt(scale, Blue(p), 255);
    assert PremultiplySample(p, scale) == Pack(Alpha(p), Red(p), Green(p), Blue(p));
    PackOfChannels(p);
  }

  lemma PackZero()
    ensures Pack(0, 0, 0, 0) == 0
  {
  }

  /** A fully transparent sample becomes 0x00000000, whatever its colour bytes were. */
  lemma SampleTransparent(p: Word, scale: (Byte, Byte) -> Byte)
    requires ScaleFacts(scale) && Alpha(p) == 0
    ensures PremultiplySample(p, scale) == 0
  {
    ScaleAt(scale, Red(p), 0);
    ScaleAt(scale, Green(p), 0);
    ScaleAt(scale, Blue(p), 0);
    assert PremultiplySample(p, scale) == Pack(0, 0, 0, 0);
    PackZero();
  }

  /** The whole converted buffer: output sample i is computed from input sample i alone. */
  function PremultiplyAll(s: seq<Word>, scale: (Byte, Byte) -> Byte): (t: seq<Word>)
    ensures |t| == |s|
  {
    seq(|s|, i requires 0 <= i < |s| => PremultiplySample(s[i], scale))
  }

  ghost predicate AllOpaque(s: seq<Word>) {
    forall i :: 0 <= i < |s| ==> Alpha(s[i]) == 255
  }

  /**
   * Converting fully opaque data leaves it bit-for-bit unchanged (so converting
   * it again changes nothing either).
   */
  lemma PremultiplyOpaque(s: seq<Word>, scale: (Byte, Byte) -> Byte)
    requires ScaleFacts(scale)
    requires AllOpaque(s)
    ensures PremultiplyAll(s, scale) == s
  {
    var t := PremultiplyAll(s, scale);
    forall i | 0 <= i < |s| ensures t[i] == s[i] {
      SampleOpaque(s[i], scale);
    }
  }

  /** Every fully transparent sample becomes 0x00000000, whatever its colour bytes were. */
  lemma PremultiplyTransparent(s: seq<Word>, scale: (Byte, Byte) -> Byte, i: nat)
    requires ScaleFacts(scale)
    requires i < |s| && Alpha(s[i]) == 0
    ensures PremultiplyAll(s, scale)[i] == 0
  {
    SampleTransparent(s[i], scale);
  }

  /**
   * `draw_surface_from_data`: a freshly allocated buffer of `width * height`
   * samples, sample i premultiplied from `data[start + i]`; `data` is only
   * read. `start` stands for the pointer the caller passes (the selected
   * record's pixels inside the property value). The product is computed in
   * a C `int`, so the caller keeps it below 2^31.
   */
  method Premultiply(width: nat, height: nat, data: array<Word>, start: nat,
                     scale: (Byte, Byte) -> Byte)
    returns (buffer: array<Word>)
    requires width * height < 0x8000_0000
    requires start + width * height <= data.Length
    ensures fresh(buffer)
    ensures buffer.Length == width * height
    ensures buffer[..] == PremultiplyAll(data[start..start + width * height], scale)
  {
    var len := width * height;
    ghost var pixels := data[start..start + len];
    ghost var converted := PremultiplyAll(pixels, scale);
    buffer := new Word[len];
    for i := 0 to len
      invariant forall k :: 0 <= k < i ==> buffer[k] == converted[k]
    {
      var sample := data[start + i];
      var a := Alpha(sample);
      var r := scale(Red(sample), a);
      var g := scale(Green(sample), a);
      var b := scale(Blue(sample), a);
      var q := Pack(a, r, g, b);
      assert q == converted[i] by {
        assert sample == pixels[i];
      }
      buffer[i] := q;
    }
    assert buffer[..] == converted;
  }
}
