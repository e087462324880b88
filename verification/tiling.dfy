/** Assembly of a whole texture from its block grid (`decompress_dxt1` and
    `decompress_dxt5`): block rows are visited top to bottom and, within a
    row, block columns left to right; each present block is decoded into a
    4x4 patch, and the patch's pixels that fall inside the `width x height`
    image are written into a zero-initialised RGBA buffer. The two source
    functions differ only in the block size and the block decoder, so the
    walk is written once for any `Codec` and instantiated twice.

    The buffer is held as `height` rows of `width` pixels while it is being
    filled and flattened to `width * height * 4` bytes at the end; the
    flattening puts pixel `(x, y)` at byte offset `(y * width + x) * 4`, the
    offset the source writes to. */
module Tiling {
  import opened Bytes
  import opened BlockCodec
  import opened Arith

  /** A block format: how many bytes a block takes and how it decodes. */
  datatype Codec = Codec(stride: nat, decode: seq<Byte> -> seq<Rgba>)

  /** Every block of `stride` bytes decodes to a full 4x4 patch. */
  ghost predicate WellFormed(codec: Codec)
  {
    forall block: seq<Byte> :: |block| == codec.stride ==> |codec.decode(block)| == PatchSize
  }

  /** `decode_dxt1_block` lifted to every input; the walk only ever hands
      it exactly `Bc1BlockSize` bytes. */
  function Bc1Block(block: seq<Byte>): seq<Rgba>
  {
    if |block| == Bc1BlockSize then DecodeBc1(block) else []
  }

  /** `decode_dxt5_block` lifted to every input; the walk only ever hands
      it exactly `Bc3BlockSize` bytes. */
  function Bc3Block(block: seq<Byte>): seq<Rgba>
  {
    if |block| == Bc3BlockSize then DecodeBc3(block) else []
  }

  const Dxt1: Codec := Codec(Bc1BlockSize, Bc1Block)
  const Dxt5: Codec := Codec(Bc3BlockSize, Bc3Block)

  lemma CodecsWellFormed()
    ensures WellFormed(Dxt1) && WellFormed(Dxt5)
  {
  }

  /** `(y // 4) * blocks_per_row + x // 4`: the raster index of the block
      that holds pixel `(x, y)`. */
  function BlockIndex(w: nat, x: nat, y: nat): nat
  {
    Mul(y / 4, BlocksPerRow(w)) + x / 4
  }

  /** `(width + 3) // 4`, the number of block columns. */
  function BlocksPerRow(w: nat): nat
  {
    (w + 3) / 4
  }

  /** `(height + 3) // 4`, the number of block rows. */
  function BlocksPerColumn(h: nat): nat
  {
    (h + 3) / 4
  }

  /** `(by * block_width + bx) * stride`: where block `(col, row)` starts in
      the payload. */
  function BlockOffset(codec: Codec, w: nat, col: nat, row: nat): nat
  {
    Mul(Mul(row, BlocksPerRow(w)) + col, codec.stride)
  }

  /** Block `(col, row)` is decoded only when its whole byte range lies
      inside the payload; otherwise it is skipped without error. */
  predicate BlockPresent(codec: Codec, data: seq<Byte>, w: nat, col: nat, row: nat)
  {
    BlockOffset(codec, w, col, row) + codec.stride <= |data|
  }

  function BlockBytes(codec: Codec, data: seq<Byte>, w: nat, col: nat, row: nat): (block: seq<Byte>)
    requires BlockPresent(codec, data, w, col, row)
    ensures |block| == codec.stride
  {
    var off := BlockOffset(codec, w, col, row);
    data[off .. off + codec.stride]
  }

  // ---------------------------------------------------------------------
  // The reference: which block and slot every pixel comes from
  // ---------------------------------------------------------------------

  /** The position of pixel `(x, y)` inside its block's 4x4 patch. */
  function Slot(x: nat, y: nat): nat
  {
    (y % 4) * 4 + x % 4
  }

  /** What the decoded image holds at `(x, y)`: the pixel that block
      `(x / 4, y / 4)` decodes to at slot `Slot(x, y)` when that block is
      present, transparent black otherwise. */
  function ExpectedPixel(codec: Codec, data: seq<Byte>, w: nat, x: nat, y: nat): Rgba
    requires WellFormed(codec)
  {
    if BlockPresent(codec, data, w, x / 4, y / 4) then
      codec.decode(BlockBytes(codec, data, w, x / 4, y / 4))[Slot(x, y)]
    else Transparent
  }

  // ---------------------------------------------------------------------
  // The pixel buffer
  // ---------------------------------------------------------------------

  /** `img` has `h` rows of `w` pixels. */
  ghost predicate Shaped(img: seq<seq<Rgba>>, w: nat, h: nat)
  {
    |img| == h && forall y :: 0 <= y < h ==> |img[y]| == w
  }

  function Blank(w: nat, h: nat): (img: seq<seq<Rgba>>)
    ensures Shaped(img, w, h)
    ensures forall x: nat, y: nat :: x < w && y < h ==> img[y][x] == Transparent
  {
    seq(h, _ => seq(w, _ => Transparent))
  }

  function SetPixel(img: seq<seq<Rgba>>, w: nat, h: nat, x: nat, y: nat, p: Rgba): (r: seq<seq<Rgba>>)
    requires Shaped(img, w, h) && x < w && y < h
    ensures Shaped(r, w, h)
    ensures forall x': nat, y': nat :: x' < w && y' < h ==> r[y'][x'] == if x' == x && y' == y then p else img[y'][x']
  {
    img[y := img[y][x := p]]
  }

  // ---------------------------------------------------------------------
  // The source's algorithm
  // ---------------------------------------------------------------------

  /** Writes pixels `k..15` of `patch`, which belongs to block column `col`
      and block row `row`, skipping those whose coordinates fall outside the
      image. */
  function WritePatch(img: seq<seq<Rgba>>, w: nat, h: nat, col: nat, row: nat, patch: seq<Rgba>, k: nat): (r: seq<seq<Rgba>>)
    requires Shaped(img, w, h) && |patch| == PatchSize && k <= PatchSize
    ensures Shaped(r, w, h)
    decreases PatchSize - k
  {
    if k == PatchSize then img
    else WritePatch(WriteSlot(img, w, h, col, row, patch[k], k), w, h, col, row, patch, k + 1)
  }

  /** Pixel `k` of the patch of block `(col, row)` goes to
      `(col * 4 + k % 4, row * 4 + k / 4)`, unless that lies outside the
      image. */
  function WriteSlot(img: seq<seq<Rgba>>, w: nat, h: nat, col: nat, row: nat, p: Rgba, k: nat): (r: seq<seq<Rgba>>)
    requires Shaped(img, w, h) && k < PatchSize
    ensures Shaped(r, w, h)
  {
    var x, y := col * 4 + k % 4, row * 4 + k / 4;
    if x < w && y < h then SetPixel(img, w, h, x, y, p) else img
  }

  /** Visits block `(col, row)`: skipped when its bytes are missing,
      otherwise decoded and its in-range pixels written. */
  function WriteBlock(codec: Codec, data: seq<Byte>, w: nat, h: nat, img: seq<seq<Rgba>>, col: nat, row: nat): (r: seq<seq<Rgba>>)
    requires WellFormed(codec) && Shaped(img, w, h)
    ensures Shaped(r, w, h)
  {
    if !BlockPresent(codec, data, w, col, row) then img
    else WritePatch(img, w, h, col, row, codec.decode(BlockBytes(codec, data, w, col, row)), 0)
  }

  /** Visits the first `n` blocks of block row `row`, left to right. */
  function AssembleRow(codec: Codec, data: seq<Byte>, w: nat, h: nat, img: seq<seq<Rgba>>, row: nat, n: nat): (r: seq<seq<Rgba>>)
    requires WellFormed(codec) && Shaped(img, w, h)
    ensures Shaped(r, w, h)
  {
    if n == 0 then img
    else WriteBlock(codec, data, w, h, AssembleRow(codec, data, w, h, img, row, n - 1), n - 1, row)
  }

  /** The buffer after the first `rows` block rows, starting from
      `bytearray(width * height * 4)`. */
  function Assemble(codec: Codec, data: seq<Byte>, w: nat, h: nat, rows: nat): (r: seq<seq<Rgba>>)
    requires WellFormed(codec)
    ensures Shaped(r, w, h)
  {
    if rows == 0 then Blank(w, h)
    else AssembleRow(codec, data, w, h, Assemble(codec, data, w, h, rows - 1), rows - 1, BlocksPerRow(w))
  }

  /** The decoded image: every in-range pixel holds what its own block
      decodes to at its slot, or transparent black when that block's bytes
      are missing. */
  function DecodePixels(codec: Codec, data: seq<Byte>, w: nat, h: nat): (img: seq<seq<Rgba>>)
    requires WellFormed(codec)
    ensures Shaped(img, w, h)
    ensures forall x: nat, y: nat :: x < w && y < h ==> img[y][x] == ExpectedPixel(codec, data, w, x, y)
  {
    var img := Assemble(codec, data, w, h, BlocksPerColumn(h));
    forall x: nat, y: nat | x < w && y < h
      ensures img[y][x] == ExpectedPixel(codec, data, w, x, y)
    {
      AssembleSpec(codec, data, w, h, BlocksPerColumn(h), x, y);
    }
    img
  }

  /** Byte `c` (0 = red .. 3 = alpha) of a pixel. */
  function Channel(p: Rgba, c: nat): Byte
    requires c < 4
  {
    if c == 0 then p.r else if c == 1 then p.g else if c == 2 then p.b else p.a
  }

  /** The rows of an image laid end to end. */
  function RowMajor(img: seq<seq<Rgba>>): seq<Rgba>
  {
    if |img| == 0 then [] else RowMajor(img[..|img| - 1]) + img[|img| - 1]
  }

  /** Pixels laid out as consecutive R, G, B, A bytes. */
  function Flatten(pixels: seq<Rgba>): (r: seq<Byte>)
    ensures |r| == 4 * |pixels|
    ensures forall j :: 0 <= j < |r| ==> r[j] == Channel(pixels[j / 4], j % 4)
  {
    seq(4 * |pixels|, j requires 0 <= j < 4 * |pixels| => Channel(pixels[j / 4], j % 4))
  }

  /** `(y * width + x) * 4`: where pixel `(x, y)` starts in the output
      buffer. `Mul` is the product (`Arith.MulIsProduct`); `DecodedSize`
      states both sizes with plain multiplication. */
  function PixelOffset(w: nat, x: nat, y: nat): nat
  {
    4 * (Mul(y, w) + x)
  }

  /** The four bytes a pixel occupies in the output buffer. */
  function PixelBytes(p: Rgba): (b: seq<Byte>)
    ensures |b| == 4
    ensures forall c :: 0 <= c < 4 ==> b[c] == Channel(p, c)
  {
    [p.r, p.g, p.b, p.a]
  }

  /** The decoded texture as the source returns it: `width * height * 4`
      bytes in which the four at `(y * width + x) * 4` hold the pixel that
      block `(x / 4, y / 4)` decodes to at that position, or zeros when
      that block lies beyond the end of the payload. */
  function Decompress(codec: Codec, data: seq<Byte>, w: nat, h: nat): (r: seq<Byte>)
    requires WellFormed(codec)
    ensures |r| == 4 * Mul(h, w)
    ensures forall x: nat, y: nat :: x < w && y < h ==>
              PixelOffset(w, x, y) + 4 <= |r| &&
              r[PixelOffset(w, x, y) .. PixelOffset(w, x, y) + 4] == PixelBytes(ExpectedPixel(codec, data, w, x, y))
  {
    var img := DecodePixels(codec, data, w, h);
    RowMajorLength(img, w, h);
    forall x: nat, y: nat | x < w && y < h
      ensures PixelOffset(w, x, y) + 4 <= |Flatten(RowMajor(img))| &&
              Flatten(RowMajor(img))[PixelOffset(w, x, y) .. PixelOffset(w, x, y) + 4] == PixelBytes(ExpectedPixel(codec, data, w, x, y))
    {
      FlattenAt(img, w, h, x, y);
    }
    Flatten(RowMajor(img))
  }

  /** `decompress_dxt1`: the four bytes at `(y * width + x) * 4` are the
      pixel that the 8-byte block at `8 * BlockIndex(w, x, y)` decodes to at
      slot `Slot(x, y)`, or zeros when that block lies beyond the end of
      the payload. */
  function DecompressDxt1(data: seq<Byte>, w: nat, h: nat): (r: seq<Byte>)
    ensures |r| == 4 * Mul(h, w)
    ensures forall x: nat, y: nat :: x < w && y < h ==>
              PixelOffset(w, x, y) + 4 <= |r| &&
              r[PixelOffset(w, x, y) .. PixelOffset(w, x, y) + 4] ==
              PixelBytes(if 8 * BlockIndex(w, x, y) + 8 <= |data|
                         then DecodeBc1(data[8 * BlockIndex(w, x, y) .. 8 * BlockIndex(w, x, y) + 8])[Slot(x, y)]
                         else Transparent)
  {
    CodecsWellFormed();
    var r := Decompress(Dxt1, data, w, h);
    forall x: nat, y: nat | x < w && y < h
      ensures PixelOffset(w, x, y) + 4 <= |r| &&
              r[PixelOffset(w, x, y) .. PixelOffset(w, x, y) + 4] ==
              PixelBytes(if 8 * BlockIndex(w, x, y) + 8 <= |data|
                         then DecodeBc1(data[8 * BlockIndex(w, x, y) .. 8 * BlockIndex(w, x, y) + 8])[Slot(x, y)]
                         else Transparent)
    {
      Bc1Source(data, w, x, y);
    }
    r
  }

  /** `decompress_dxt5`: as `DecompressDxt1` with 16-byte blocks. */
  function DecompressDxt5(data: seq<Byte>, w: nat, h: nat): (r: seq<Byte>)
    ensures |r| == 4 * Mul(h, w)
    ensures forall x: nat, y: nat :: x < w && y < h ==>
              PixelOffset(w, x, y) + 4 <= |r| &&
              r[PixelOffset(w, x, y) .. PixelOffset(w, x, y) + 4] ==
              PixelBytes(if 16 * BlockIndex(w, x, y) + 16 <= |data|
                         then DecodeBc3(data[16 * BlockIndex(w, x, y) .. 16 * BlockIndex(w, x, y) + 16])[Slot(x, y)]
                         else Transparent)
  {
    CodecsWellFormed();
    var r := Decompress(Dxt5, data, w, h);
    forall x: nat, y: nat | x < w && y < h
      ensures PixelOffset(w, x, y) + 4 <= |r| &&
              r[PixelOffset(w, x, y) .. PixelOffset(w, x, y) + 4] ==
              PixelBytes(if 16 * BlockIndex(w, x, y) + 16 <= |data|
                         then DecodeBc3(data[16 * BlockIndex(w, x, y) .. 16 * BlockIndex(w, x, y) + 16])[Slot(x, y)]
                         else Transparent)
    {
      Bc3Source(data, w, x, y);
    }
    r
  }

  /** Both decoders return `width * height * 4` bytes, and pixel `(x, y)`
      starts at byte `(y * width + x) * 4`. */
  lemma DecodedSize(data: seq<Byte>, w: nat, h: nat, x: nat, y: nat)
    ensures |DecompressDxt1(data, w, h)| == w * h * 4
    ensures |DecompressDxt5(data, w, h)| == w * h * 4
    ensures PixelOffset(w, x, y) == (y * w + x) * 4
  {
    MulIsProduct(h, w);
    MulIsProduct(y, w);
  }

  // ---------------------------------------------------------------------
  // Proofs
  // ---------------------------------------------------------------------

  /** Step `k` of a patch write targets `(x, y)` exactly when `(x, y)` lies
      in the block and has slot `k`. */
  lemma SlotTarget(col: nat, row: nat, k: nat, x: nat, y: nat)
    requires k < PatchSize
    ensures (x / 4 == col && y / 4 == row && Slot(x, y) == k) <==> (x == col * 4 + k % 4 && y == row * 4 + k / 4)
  {
  }

  /** One slot write changes pixel `(x, y)` exactly when `(x, y)` lies in
      the block and has that slot. */
  lemma WriteSlotSpec(img: seq<seq<Rgba>>, w: nat, h: nat, col: nat, row: nat, p: Rgba, k: nat, x: nat, y: nat)
    requires Shaped(img, w, h) && k < PatchSize && x < w && y < h
    ensures WriteSlot(img, w, h, col, row, p, k)[y][x] ==
            if x / 4 == col && y / 4 == row && Slot(x, y) == k then p else img[y][x]
  {
    SlotTarget(col, row, k, x, y);
  }

  /** Within one patch write, pixel `(x, y)` is overwritten exactly when it
      lies in the block and its slot is still to be written. */
  lemma {:induction false} WritePatchSpec(img: seq<seq<Rgba>>, w: nat, h: nat, col: nat, row: nat, patch: seq<Rgba>, k: nat, x: nat, y: nat)
    requires Shaped(img, w, h) && |patch| == PatchSize && k <= PatchSize
    requires x < w && y < h
    ensures WritePatch(img, w, h, col, row, patch, k)[y][x] ==
            if x / 4 == col && y / 4 == row && Slot(x, y) >= k then patch[Slot(x, y)] else img[y][x]
    decreases PatchSize - k
  {
    if k < PatchSize {
      var img' := WriteSlot(img, w, h, col, row, patch[k], k);
      WritePatchSpec(img', w, h, col, row, patch, k + 1, x, y);
      WriteSlotSpec(img, w, h, col, row, patch[k], k, x, y);
    }
  }

  /** A block write changes exactly the in-range pixels of that block, and
      only when the block's bytes are present. */
  lemma WriteBlockSpec(codec: Codec, data: seq<Byte>, w: nat, h: nat, img: seq<seq<Rgba>>, col: nat, row: nat, x: nat, y: nat)
    requires WellFormed(codec) && Shaped(img, w, h) && x < w && y < h
    ensures WriteBlock(codec, data, w, h, img, col, row)[y][x] ==
            if x / 4 == col && y / 4 == row && BlockPresent(codec, data, w, col, row)
            then ExpectedPixel(codec, data, w, x, y) else img[y][x]
  {
    if BlockPresent(codec, data, w, col, row) {
      WritePatchSpec(img, w, h, col, row, codec.decode(BlockBytes(codec, data, w, col, row)), 0, x, y);
    }
  }

  /** Visiting the first `n` blocks of a block row fills the present ones. */
  lemma {:induction false} AssembleRowSpec(codec: Codec, data: seq<Byte>, w: nat, h: nat, img: seq<seq<Rgba>>, row: nat, n: nat, x: nat, y: nat)
    requires WellFormed(codec) && Shaped(img, w, h) && x < w && y < h
    ensures AssembleRow(codec, data, w, h, img, row, n)[y][x] ==
            if y / 4 == row && x / 4 < n && BlockPresent(codec, data, w, x / 4, y / 4)
            then ExpectedPixel(codec, data, w, x, y) else img[y][x]
  {
    if n > 0 {
      var prev := AssembleRow(codec, data, w, h, img, row, n - 1);
      assert AssembleRow(codec, data, w, h, img, row, n) == WriteBlock(codec, data, w, h, prev, n - 1, row);
      AssembleRowSpec(codec, data, w, h, img, row, n - 1, x, y);
      WriteBlockSpec(codec, data, w, h, prev, n - 1, row, x, y);
    }
  }

  /** After the first `rows` block rows, an in-range pixel holds its
      expected value if its block row has been visited and is still zero
      otherwise. */
  lemma {:induction false} AssembleSpec(codec: Codec, data: seq<Byte>, w: nat, h: nat, rows: nat, x: nat, y: nat)
    requires WellFormed(codec) && x < w && y < h
    ensures Assemble(codec, data, w, h, rows)[y][x] ==
            if y / 4 < rows then ExpectedPixel(codec, data, w, x, y) else Transparent
  {
    if rows > 0 {
      var prev := Assemble(codec, data, w, h, rows - 1);
      AssembleSpec(codec, data, w, h, rows - 1, x, y);
      assert x / 4 < BlocksPerRow(w);
      AssembleRowSpec(codec, data, w, h, prev, rows - 1, BlocksPerRow(w), x, y);
    }
  }

  lemma {:induction false} RowMajorLength(img: seq<seq<Rgba>>, w: nat, h: nat)
    requires Shaped(img, w, h)
    ensures |RowMajor(img)| == Mul(h, w)
  {
    if h > 0 {
      RowMajorLength(img[..h - 1], w, h - 1);
    }
  }

  /** Laying the rows end to end puts pixel `(x, y)` at `y * w + x`. */
  lemma {:induction false} RowMajorIndex(img: seq<seq<Rgba>>, w: nat, h: nat, x: nat, y: nat)
    requires Shaped(img, w, h) && x < w && y < h
    ensures Mul(y, w) + x < |RowMajor(img)| && RowMajor(img)[Mul(y, w) + x] == img[y][x]
  {
    var prefix := img[..h - 1];
    RowMajorLength(prefix, w, h - 1);
    RowMajorLength(img, w, h);
    if y < h - 1 {
      RowMajorIndex(prefix, w, h - 1, x, y);
    }
  }

  /** The four bytes at `PixelOffset(w, x, y)` of the flattened image are
      pixel `(x, y)`. */
  lemma FlattenAt(img: seq<seq<Rgba>>, w: nat, h: nat, x: nat, y: nat)
    requires Shaped(img, w, h) && x < w && y < h
    ensures PixelOffset(w, x, y) + 4 <= |Flatten(RowMajor(img))|
    ensures Flatten(RowMajor(img))[PixelOffset(w, x, y) .. PixelOffset(w, x, y) + 4] == PixelBytes(img[y][x])
  {
    var r, p := Flatten(RowMajor(img)), PixelOffset(w, x, y);
    RowMajorLength(img, w, h);
    RowMajorIndex(img, w, h, x, y);
    PixelByteBound(w, h, x, y, 3);
    forall c | 0 <= c < 4
      ensures r[p .. p + 4][c] == PixelBytes(img[y][x])[c]
    {
      assert r[p + c] == Channel(RowMajor(img)[(p + c) / 4], (p + c) % 4);
    }
  }

  /** The expected pixel spelled out with the block's byte offset,
      `BlockIndex * stride`. */
  lemma BlockSource(codec: Codec, data: seq<Byte>, w: nat, x: nat, y: nat)
    requires WellFormed(codec)
    ensures var off := Mul(BlockIndex(w, x, y), codec.stride);
            ExpectedPixel(codec, data, w, x, y) ==
            if off + codec.stride <= |data| then codec.decode(data[off .. off + codec.stride])[Slot(x, y)] else Transparent
  {
  }

  /** `BlockSource` for a codec of stride `s`, with the offset as a plain
      product. */
  lemma StrideSource(codec: Codec, s: nat, data: seq<Byte>, w: nat, x: nat, y: nat)
    requires WellFormed(codec) && codec.stride == s
    ensures var off := s * BlockIndex(w, x, y);
            ExpectedPixel(codec, data, w, x, y) ==
            if off + s <= |data| then codec.decode(data[off .. off + s])[Slot(x, y)] else Transparent
  {
    BlockSource(codec, data, w, x, y);
    MulIsProduct(BlockIndex(w, x, y), s);
  }

  lemma Bc1Decode(block: seq<Byte>)
    requires |block| == Bc1BlockSize
    ensures Dxt1.decode(block) == DecodeBc1(block)
  {
  }

  lemma Bc3Decode(block: seq<Byte>)
    requires |block| == Bc3BlockSize
    ensures Dxt5.decode(block) == DecodeBc3(block)
  {
  }

  /** For 8-byte blocks, the expected pixel spelled out with the block's
      byte offset. */
  lemma Bc1Source(data: seq<Byte>, w: nat, x: nat, y: nat)
    requires WellFormed(Dxt1)
    ensures var off := 8 * BlockIndex(w, x, y);
            ExpectedPixel(Dxt1, data, w, x, y) ==
            if off + 8 <= |data| then DecodeBc1(data[off .. off + 8])[Slot(x, y)] else Transparent
  {
    var off := 8 * BlockIndex(w, x, y);
    StrideSource(Dxt1, 8, data, w, x, y);
    if off + 8 <= |data| {
      Bc1Decode(data[off .. off + 8]);
    }
  }

  /** For 16-byte blocks, the expected pixel spelled out with the block's
      byte offset. */
  lemma Bc3Source(data: seq<Byte>, w: nat, x: nat, y: nat)
    requires WellFormed(Dxt5)
    ensures var off := 16 * BlockIndex(w, x, y);
            ExpectedPixel(Dxt5, data, w, x, y) ==
            if off + 16 <= |data| then DecodeBc3(data[off .. off + 16])[Slot(x, y)] else Transparent
  {
    var off := 16 * BlockIndex(w, x, y);
    StrideSource(Dxt5, 16, data, w, x, y);
    if off + 16 <= |data| {
      Bc3Decode(data[off .. off + 16]);
    }
  }

  /** Every in-range pixel is reached by exactly one (block column, block
      row, slot) triple of the walk over the `BlocksPerRow x BlocksPerColumn`
      grid, and that triple lies inside the grid. */
  lemma PixelHasUniqueSource(w: nat, h: nat, x: nat, y: nat, col: nat, row: nat, k: nat)
    requires x < w && y < h && k < PatchSize
    ensures x / 4 < BlocksPerRow(w) && y / 4 < BlocksPerColumn(h) && Slot(x, y) < PatchSize
    ensures (col * 4 + k % 4 == x && row * 4 + k / 4 == y) <==> (col == x / 4 && row == y / 4 && k == Slot(x, y))
  {
    SlotTarget(col, row, k, x, y);
  }

  /** Distinct blocks of the grid occupy distinct raster positions, so
      their payload byte ranges never overlap. */
  lemma BlockOffsetsDistinct(codec: Codec, w: nat, col: nat, row: nat, col': nat, row': nat)
    requires col < BlocksPerRow(w) && col' < BlocksPerRow(w)
    requires (col, row) != (col', row')
    ensures BlockOffset(codec, w, col, row) + codec.stride <= BlockOffset(codec, w, col', row')
            || BlockOffset(codec, w, col', row') + codec.stride <= BlockOffset(codec, w, col, row)
  {
    var bpr := BlocksPerRow(w);
    var b, b' := Mul(row, bpr) + col, Mul(row', bpr) + col';
    if b == b' {
      RowMajorInjective(bpr, col, row, col', row');
    }
    if b < b' {
      MulRowMono(b + 1, b', codec.stride);
    } else {
      MulRowMono(b' + 1, b, codec.stride);
    }
  }
}
