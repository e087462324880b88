/** Decoding of single S3TC blocks: BC1 (DXT1, 8 bytes) and BC3 (DXT5,
    16 bytes), each into a 4x4 patch of RGBA pixels in row-major order.
    All arithmetic is Python's truncating `//` on non-negative integers. */
module BlockCodec {
  import opened Bytes
  import opened Arith

  /** One decoded pixel. */
  datatype Rgba = Rgba(r: Byte, g: Byte, b: Byte, a: Byte)

  /** The value of a pixel nothing has been written to (`bytearray` zeros). */
  const Transparent := Rgba(0, 0, 0, 0)

  const Bc1BlockSize := 8
  const Bc3BlockSize := 16

  /** Number of pixels in a decoded patch. */
  const PatchSize := 16

  predicate Between(x: int, lo: int, hi: int)
  {
    (lo <= x <= hi) || (hi <= x <= lo)
  }

  /** Each colour channel of `p` lies between the matching channels of `e0` and `e1`. */
  predicate BetweenRgb(p: Rgba, e0: Rgba, e1: Rgba)
  {
    Between(p.r, e0.r, e1.r) && Between(p.g, e0.g, e1.g) && Between(p.b, e0.b, e1.b)
  }

  predicate SameRgb(p: Rgba, q: Rgba)
  {
    p.r == q.r && p.g == q.g && p.b == q.b
  }

  // ---------------------------------------------------------------------
  // RGB565 expansion
  // ---------------------------------------------------------------------

  /** A 5-bit channel scaled to 8 bits by `v * 255 // 31`. */
  function Expand5(v: nat): (r: Byte)
    requires v < 32
    ensures v == 0 ==> r == 0
    ensures v == 31 ==> r == 255
  {
    v * 255 / 31
  }

  /** A 6-bit channel scaled to 8 bits by `v * 255 // 63`. */
  function Expand6(v: nat): (r: Byte)
    requires v < 64
    ensures v == 0 ==> r == 0
    ensures v == 63 ==> r == 255
  {
    v * 255 / 63
  }

  /** Rounds an 8-bit channel up to the nearest 5-bit level; the left
      inverse of `Expand5`. */
  function Contract5(e: Byte): (v: nat)
  {
    (e * 31 + 254) / 255
  }

  /** Rounds an 8-bit channel up to the nearest 6-bit level; the left
      inverse of `Expand6`. */
  function Contract6(e: Byte): (v: nat)
  {
    (e * 63 + 254) / 255
  }

  /** Expansion is strictly increasing and loses nothing: `Contract5` undoes it. */
  lemma Expand5Injective(u: nat, v: nat)
    requires u < v < 32
    ensures Expand5(u) < Expand5(v)
    ensures Contract5(Expand5(v)) == v
  {
    Expand5Inverse(v);
  }

  /** Rounding back to 5 bits undoes the expansion of every 5-bit value. */
  lemma Expand5Inverse(v: nat)
    requires v < 32
    ensures Contract5(Expand5(v)) == v
  {
    var e := Expand5(v);
    assert v * 255 - 30 <= e * 31 <= v * 255;
  }

  lemma Expand6Injective(u: nat, v: nat)
    requires u < v < 64
    ensures Expand6(u) < Expand6(v)
    ensures Contract6(Expand6(v)) == v
  {
    Expand6Inverse(v);
  }

  /** Rounding back to 6 bits undoes the expansion of every 6-bit value. */
  lemma Expand6Inverse(v: nat)
    requires v < 64
    ensures Contract6(Expand6(v)) == v
  {
    var e := Expand6(v);
    assert v * 255 - 62 <= e * 63 <= v * 255;
  }

  /** The three fields of a packed 5-6-5 colour. */
  function Red5(c: U16): nat { (c / 2048) % 32 }
  function Green6(c: U16): nat { (c / 32) % 64 }
  function Blue5(c: U16): nat { c % 32 }

  /** A packed colour endpoint expanded to an opaque RGBA pixel. */
  function Endpoint(c: U16): (p: Rgba)
    ensures p.a == 255
  {
    Rgba(Expand5(Red5(c)), Expand6(Green6(c)), Expand5(Blue5(c)), 255)
  }

  /** A packed colour is the sum of its three shifted fields. */
  lemma Unpack565(c: U16)
    ensures c == Red5(c) * 2048 + Green6(c) * 32 + Blue5(c)
  {
  }

  /** Re-packing the rounded channels of an expanded endpoint gives back the
      16-bit value it was read from: the 5-6-5 expansion is injective. */
  lemma EndpointRoundTrip(c: U16)
    ensures Contract5(Endpoint(c).r) * 2048 + Contract6(Endpoint(c).g) * 32 + Contract5(Endpoint(c).b) == c
  {
    var r, g, b := Red5(c), Green6(c), Blue5(c);
    Expand5Inverse(r);
    Expand6Inverse(g);
    Expand5Inverse(b);
    assert Contract5(Endpoint(c).r) == r;
    assert Contract6(Endpoint(c).g) == g;
    assert Contract5(Endpoint(c).b) == b;
    Unpack565(c);
  }

  // ---------------------------------------------------------------------
  // Colour palettes
  // ---------------------------------------------------------------------

  /** `(2*a + b) // 3`: the palette entry one third of the way from `a` to `b`. */
  function Third(a: Byte, b: Byte): (r: Byte)
    ensures Between(r, a, b)
  {
    (2 * a + b) / 3
  }

  /** `(a + b) // 2`. */
  function Half(a: Byte, b: Byte): (r: Byte)
    ensures Between(r, a, b)
  {
    (a + b) / 2
  }

  /** The four-colour palette: both endpoints and the two truncated thirds,
      all opaque. BC3 always uses it; BC1 uses it when `c0 > c1`. */
  function FourColourPalette(e0: Rgba, e1: Rgba): (p: seq<Rgba>)
    requires e0.a == 255 && e1.a == 255
    ensures |p| == 4 && p[0] == e0 && p[1] == e1
    ensures forall i :: 0 <= i < 4 ==> p[i].a == 255 && BetweenRgb(p[i], e0, e1)
  {
    [e0, e1,
     Rgba(Third(e0.r, e1.r), Third(e0.g, e1.g), Third(e0.b, e1.b), 255),
     Rgba(Third(e1.r, e0.r), Third(e1.g, e0.g), Third(e1.b, e0.b), 255)]
  }

  /** The BC1 palette. The mode is chosen by comparing the raw packed 16-bit
      endpoints, not the decoded colours. In three-colour mode slot 2 is the
      average and slot 3 is fully transparent black. */
  function Bc1Palette(c0: U16, c1: U16): (p: seq<Rgba>)
    ensures |p| == 4 && p[0] == Endpoint(c0) && p[1] == Endpoint(c1)
    ensures forall i :: 0 <= i < 4 ==> (p[i].a == 0 <==> c0 <= c1 && i == 3)
    ensures forall i :: 0 <= i < 4 && p[i].a == 0 ==> p[i] == Transparent
    ensures forall i :: 0 <= i < 4 && p[i].a != 0 ==>
              p[i].a == 255 && BetweenRgb(p[i], Endpoint(c0), Endpoint(c1))
  {
    var e0, e1 := Endpoint(c0), Endpoint(c1);
    if c0 > c1 then
      FourColourPalette(e0, e1)
    else
      [e0, e1, Rgba(Half(e0.r, e1.r), Half(e0.g, e1.g), Half(e0.b, e1.b), 255), Transparent]
  }

  // ---------------------------------------------------------------------
  // Alpha ramp (BC3)
  // ---------------------------------------------------------------------

  /** `((n - i) * a0 + i * a1) // n`: step `i` of `n` from `a0` towards `a1`. */
  function Lerp(a0: Byte, a1: Byte, i: nat, n: nat): (r: Byte)
    requires 0 < i < n
    ensures Between(r, a0, a1)
  {
    var num := (n - i) * a0 + i * a1;
    LerpNumerator(a0, a1, i, n);
    DivBetween(num, n, a0, a1);
    num / n
  }

  lemma LerpNumerator(a0: nat, a1: nat, i: nat, n: nat)
    requires 0 < i < n
    ensures Between((n - i) * a0 + i * a1, n * a0, n * a1)
  {
    if a0 >= a1 {
      assert i * (a0 - a1) <= n * (a0 - a1);
    } else {
      assert i * (a1 - a0) <= n * (a1 - a0);
    }
  }

  lemma DivBetween(num: nat, n: nat, lo: nat, hi: nat)
    requires n > 0 && Between(num, n * lo, n * hi)
    ensures Between(num / n, lo, hi)
  {
    MulDivCancel(lo, n);
    MulDivCancel(hi, n);
    if n * lo <= num <= n * hi {
      DivMono(n * lo, num, n);
      DivMono(num, n * hi, n);
    } else {
      DivMono(n * hi, num, n);
      DivMono(num, n * lo, n);
    }
  }

  /** Moving one step along the interpolation changes the numerator by `a1 - a0`. */
  lemma LerpNumeratorStep(a0: nat, a1: nat, i: nat, n: nat)
    requires i + 1 < n
    ensures (n - (i + 1)) * a0 + (i + 1) * a1 == (n - i) * a0 + i * a1 - a0 + a1
  {
    var m := n - (i + 1);
    assert n - i == m + 1;
    assert (m + 1) * a0 == m * a0 + a0;
    assert (i + 1) * a1 == i * a1 + a1;
  }

  /** Consecutive steps move monotonically from `a0` towards `a1`. */
  lemma LerpStep(a0: Byte, a1: Byte, i: nat, n: nat)
    requires 0 < i && i + 1 < n
    ensures a0 >= a1 ==> Lerp(a0, a1, i, n) >= Lerp(a0, a1, i + 1, n)
    ensures a0 <= a1 ==> Lerp(a0, a1, i, n) <= Lerp(a0, a1, i + 1, n)
  {
    var x := (n - i) * a0 + i * a1;
    var y := (n - (i + 1)) * a0 + (i + 1) * a1;
    assert Lerp(a0, a1, i, n) == x / n;
    assert Lerp(a0, a1, i + 1, n) == y / n;
    assert y == x - a0 + a1 by {
      LerpNumeratorStep(a0, a1, i, n);
    }
    if a0 >= a1 {
      DivMono(y, x, n);
    } else {
      DivMono(x, y, n);
    }
  }

  /** The eight-entry BC3 alpha ramp. With `a0 > a1` the six interpolated
      entries step from `a0` down to `a1` in sevenths (i = 1..6); otherwise
      four entries step from `a0` up to `a1` in fifths (i = 1..4) and the last
      two are 0 and 255. */
  function AlphaRamp(a0: Byte, a1: Byte): (ramp: seq<Byte>)
    ensures |ramp| == 8 && ramp[0] == a0 && ramp[1] == a1
    ensures a0 > a1 ==>
              && a0 >= ramp[2] && ramp[7] >= a1
              && forall i :: 2 <= i < 7 ==> ramp[i] >= ramp[i + 1]
    ensures a0 <= a1 ==>
              && a0 <= ramp[2] && ramp[5] <= a1
              && (forall i :: 2 <= i < 5 ==> ramp[i] <= ramp[i + 1])
              && ramp[6] == 0 && ramp[7] == 255
  {
    if a0 > a1 then
      LerpStep(a0, a1, 1, 7); LerpStep(a0, a1, 2, 7); LerpStep(a0, a1, 3, 7);
      LerpStep(a0, a1, 4, 7); LerpStep(a0, a1, 5, 7);
      [a0, a1, Lerp(a0, a1, 1, 7), Lerp(a0, a1, 2, 7), Lerp(a0, a1, 3, 7),
       Lerp(a0, a1, 4, 7), Lerp(a0, a1, 5, 7), Lerp(a0, a1, 6, 7)]
    else
      LerpStep(a0, a1, 1, 5); LerpStep(a0, a1, 2, 5); LerpStep(a0, a1, 3, 5);
      [a0, a1, Lerp(a0, a1, 1, 5), Lerp(a0, a1, 2, 5), Lerp(a0, a1, 3, 5),
       Lerp(a0, a1, 4, 5), 0, 255]
  }

  /** With the full range `a0 = 255, a1 = 0` the loop's steps `i = 1..6`
      give the truncated sevenths 218, 182, 145, 109, 72, 36. */
  lemma AlphaRampFullRange()
    ensures AlphaRamp(255, 0) == [255, 0, 218, 182, 145, 109, 72, 36]
  {
  }

  // ---------------------------------------------------------------------
  // Index fields
  // ---------------------------------------------------------------------

  /** `(bits >> (k * 2)) & 0x3`: the 2-bit colour index of pixel `k`. */
  function ColourIndex(bits: nat, k: nat): (i: nat)
    ensures i < 4
  {
    (bits / Pow2(2 * k)) % 4
  }

  /** `(bits >> (k * 3)) & 0x7`: the 3-bit alpha index of pixel `k`. */
  function AlphaIndex(bits: nat, k: nat): (i: nat)
    ensures i < 8
  {
    (bits / Pow2(3 * k)) % 8
  }

  /** `struct.unpack('<Q', block[0:8])[0] >> 16`: the 48 alpha index bits of
      a BC3 block, which are exactly bytes 2..7 read little-endian. */
  function AlphaBits(block: seq<Byte>): (bits: nat)
    requires |block| >= 8
    ensures bits == U16LE(block, 2) + 0x1_0000 * U32LE(block, 4)
  {
    U64LE(block, 0) / 0x1_0000
  }

  // ---------------------------------------------------------------------
  // Block decoders
  // ---------------------------------------------------------------------

  /** Decodes one 8-byte BC1 block: endpoints `c0`, `c1` (little-endian
      u16 at 0 and 2) and the u32 index field at 4. A pixel is transparent
      black exactly when the block is in three-colour mode (`c0 <= c1`) and
      its index is 3; every other pixel is opaque with each channel between
      the endpoints' channels. Pixel `k` is the palette entry its 2-bit
      index selects. */
  function DecodeBc1(block: seq<Byte>): (patch: seq<Rgba>)
    requires |block| == Bc1BlockSize
    ensures |patch| == PatchSize
    ensures forall k :: 0 <= k < PatchSize ==>
              patch[k] == Bc1Palette(U16LE(block, 0), U16LE(block, 2))[ColourIndex(U32LE(block, 4), k)]
    ensures forall k :: 0 <= k < PatchSize ==>
              (patch[k].a == 0 <==> U16LE(block, 0) <= U16LE(block, 2) && ColourIndex(U32LE(block, 4), k) == 3)
    ensures forall k :: 0 <= k < PatchSize ==>
              if patch[k].a == 0 then patch[k] == Transparent
              else patch[k].a == 255 && BetweenRgb(patch[k], Endpoint(U16LE(block, 0)), Endpoint(U16LE(block, 2)))
  {
    var palette := Bc1Palette(U16LE(block, 0), U16LE(block, 2));
    var bits := U32LE(block, 4);
    seq(PatchSize, k requires 0 <= k < PatchSize => palette[ColourIndex(bits, k)])
  }

  /** A BC1 block whose two endpoints are equal decodes every pixel either
      to that endpoint's colour (indices 0, 1 and 2, the average of equal
      colours being the colour) or to transparent black (index 3). */
  lemma Bc1EqualEndpoints(block: seq<Byte>)
    requires |block| == Bc1BlockSize && U16LE(block, 0) == U16LE(block, 2)
    ensures forall k :: 0 <= k < PatchSize ==>
              DecodeBc1(block)[k] == (if ColourIndex(U32LE(block, 4), k) == 3 then Transparent
                                      else Endpoint(U16LE(block, 0)))
  {
    var e := Endpoint(U16LE(block, 0));
    assert Half(e.r, e.r) == e.r && Half(e.g, e.g) == e.g && Half(e.b, e.b) == e.b;
  }

  /** Decodes one 16-byte BC3 block: an 8-byte alpha half (`a0`, `a1`, 48
      index bits) then an 8-byte colour half laid out like BC1. The colour
      always comes from the four-colour palette, whatever the order of the
      endpoints, and the alpha byte only from the ramp. */
  function DecodeBc3(block: seq<Byte>): (patch: seq<Rgba>)
    requires |block| == Bc3BlockSize
    ensures |patch| == PatchSize
    ensures forall k :: 0 <= k < PatchSize ==>
              patch[k].a == AlphaRamp(block[0], block[1])[AlphaIndex(AlphaBits(block), k)]
    ensures forall k :: 0 <= k < PatchSize ==>
              && BetweenRgb(patch[k], Endpoint(U16LE(block, 8)), Endpoint(U16LE(block, 10)))
              && SameRgb(patch[k], FourColourPalette(Endpoint(U16LE(block, 8)), Endpoint(U16LE(block, 10)))[ColourIndex(U32LE(block, 12), k)])
  {
    var ramp := AlphaRamp(block[0], block[1]);
    var alphaBits := AlphaBits(block);
    var palette := FourColourPalette(Endpoint(U16LE(block, 8)), Endpoint(U16LE(block, 10)));
    var bits := U32LE(block, 12);
    seq(PatchSize, k requires 0 <= k < PatchSize =>
      var c := palette[ColourIndex(bits, k)];
      Rgba(c.r, c.g, c.b, ramp[AlphaIndex(alphaBits, k)]))
  }

  /** The colour half of a BC3 block decodes like a BC1 block in
      four-colour mode: when its `c0 > c1`, every BC3 pixel has the colour of
      the matching pixel of the BC1 decoding of bytes 8..15. */
  lemma Bc3ColourIsBc1FourColour(block: seq<Byte>)
    requires |block| == Bc3BlockSize
    requires U16LE(block, 8) > U16LE(block, 10)
    ensures forall k :: 0 <= k < PatchSize ==>
              SameRgb(DecodeBc3(block)[k], DecodeBc1(block[8..16])[k])
  {
    var half := block[8..16];
    assert U16LE(half, 0) == U16LE(block, 8);
    assert U16LE(half, 2) == U16LE(block, 10);
    assert U32LE(half, 4) == U32LE(block, 12);
  }
}
