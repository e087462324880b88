/** The PNG writer (`write_png`): an 8-byte signature, then an IHDR chunk
    for a `width x height` RGBA image with 8 bits per channel, one IDAT
    chunk holding the compressed scanlines, and an empty IEND chunk. Every
    scanline is filter type 0 (None) followed by that row's bytes. The
    file layout follows sections 5.2-5.3 and 11.2 of the PNG specification
    (ISO/IEC 15948).

    `zlib.compress(raw, 9)` is a parameter `compress`; the model does not
    look inside it. The reader below is the writer's partner: it accepts
    exactly the files of that layout, checks every chunk's CRC, and, given
    an `inflate` that undoes `compress`, recovers the image. */
module Png {
  import opened Bytes
  import opened Results
  import opened Arith
  import opened Crc

  const Signature: seq<Byte> := [0x89, 0x50, 0x4E, 0x47, 0x0D, 0x0A, 0x1A, 0x0A]
  const IhdrTag: seq<Byte> := [0x49, 0x48, 0x44, 0x52]
  const IdatTag: seq<Byte> := [0x49, 0x44, 0x41, 0x54]
  const IendTag: seq<Byte> := [0x49, 0x45, 0x4E, 0x44]

  /** The empty IEND chunk that ends every file: zero length, the type, and
      the CRC-32 of the type (`IendChunk` proves the CRC right). */
  const Iend: seq<Byte> := [0, 0, 0, 0] + IendTag + [0xAE, 0x42, 0x60, 0x82]

  /** Bit depth 8, colour type 6 (RGBA), compression 0, filter method 0,
      no interlace. */
  const IhdrTail: seq<Byte> := [8, 6, 0, 0, 0]

  /** Filter type 0: the scanline is stored as is. */
  const FilterNone: Byte := 0

  /** The exclusive upper bound of a `struct.pack('>I', ...)` field. */
  const FieldLimit: nat := 0x1_0000_0000

  /** `struct.pack` raises when a length or dimension needs more than 32
      bits. */
  datatype PngError = FieldOverflow

  /** One chunk: big-endian data length, 4-byte type, data, and the CRC-32
      of type and data. */
  function Chunk(tag: seq<Byte>, data: seq<Byte>): (r: seq<Byte>)
    requires |tag| == 4 && |data| < FieldLimit
    ensures |r| == 12 + |data|
    ensures r[4..8] == tag && r[8..8 + |data|] == data
  {
    Be32(|data|) + tag + data + Be32(Crc32(tag + data))
  }

  /** The 13 bytes of IHDR data. */
  function IhdrData(w: nat, h: nat): (r: seq<Byte>)
    requires w < FieldLimit && h < FieldLimit
    ensures |r| == 13 && r[8..] == IhdrTail
  {
    Be32(w) + Be32(h) + IhdrTail
  }

  /** Python's `s[lo:hi]` for non-negative bounds: both ends clipped to the
      length, and empty when `hi <= lo`. */
  function Slice(s: seq<Byte>, lo: nat, hi: nat): (r: seq<Byte>)
    ensures lo <= hi <= |s| ==> r == s[lo..hi]
    ensures lo <= |s| <= hi ==> r == s[lo..]
    ensures |s| <= lo || hi <= lo ==> r == []
    ensures |r| <= |s|
  {
    var a := if lo < |s| then lo else |s|;
    var b := if hi < |s| then hi else |s|;
    if a <= b then s[a..b] else []
  }

  /** The raw image data: row `y` is the filter byte followed by
      `rgba_data[y * width * 4 : (y + 1) * width * 4]`. */
  function Scanlines(w: nat, h: nat, rgba: seq<Byte>): seq<Byte>
  {
    if h == 0 then []
    else Scanlines(w, h - 1, rgba) + [FilterNone] + Slice(rgba, 4 * Mul(h - 1, w), 4 * Mul(h, w))
  }

  /** The whole file `write_png` writes, or the error `struct.pack` raises. */
  function WritePng(w: nat, h: nat, rgba: seq<Byte>, compress: seq<Byte> -> seq<Byte>): (r: Result<seq<Byte>, PngError>)
    ensures r.Success? <==> w < FieldLimit && h < FieldLimit && |compress(Scanlines(w, h, rgba))| < FieldLimit
    ensures r.Success? ==>
              && |r.value| == 57 + |compress(Scanlines(w, h, rgba))|
              && r.value[..8] == Signature
              && r.value[|r.value| - 12..] == Iend
  {
    if w >= FieldLimit || h >= FieldLimit then Failure(FieldOverflow)
    else
      var z := compress(Scanlines(w, h, rgba));
      if |z| >= FieldLimit then Failure(FieldOverflow)
      else
        var png := Layout(w, h, z);
        assert png[|png| - 12..] == Iend;
        Success(png)
  }

  // ---------------------------------------------------------------------
  // Reading back
  // ---------------------------------------------------------------------

  datatype Parsed = Parsed(tag: seq<Byte>, data: seq<Byte>, rest: seq<Byte>)

  /** Splits the first chunk off `s`, rejecting a truncated chunk or one
      whose stored CRC does not match its type and data. */
  function ParseChunk(s: seq<Byte>): (r: Option<Parsed>)
    ensures r.Some? ==> |r.value.tag| == 4 && |r.value.data| < FieldLimit &&
                        s == Chunk(r.value.tag, r.value.data) + r.value.rest
  {
    if |s| < 12 then None
    else
      var n := ReadU32BE(s, 0);
      if |s| < 12 + n then None
      else
        var tag, data := s[4..8], s[8..8 + n];
        if ReadU32BE(s, 8 + n) != Crc32(tag + data) then None
        else
          assert s == s[0..4] + tag + data + s[8 + n..12 + n] + s[12 + n..];
          Some(Parsed(tag, data, s[12 + n..]))
  }

  /** The pixel data of `h` scanlines of filter type 0, or `None` when the
      length is wrong or a scanline uses another filter. */
  function Unfilter(w: nat, h: nat, raw: seq<Byte>): (r: Option<seq<Byte>>)
    ensures r.Some? ==> |r.value| == 4 * Mul(h, w) && |raw| == Mul(h, 1 + 4 * w)
  {
    var n := 1 + 4 * w;
    if h == 0 then (if |raw| == 0 then Some([]) else None)
    else if |raw| < n || raw[|raw| - n] != FilterNone then None
    else match Unfilter(w, h - 1, raw[..|raw| - n])
      case None => None
      case Some(pixels) => Some(pixels + raw[|raw| - n + 1..])
  }

  datatype Image = Image(width: nat, height: nat, rgba: seq<Byte>)

  /** The IHDR and IDAT data of a file of the layout `WritePng` produces:
      signature, IHDR, one IDAT, the IEND chunk, nothing after. Every
      chunk's CRC is checked on the way. */
  function ReadChunks(png: seq<Byte>): (r: Option<(seq<Byte>, seq<Byte>)>)
    ensures r.Some? ==> |r.value.0| < FieldLimit && |r.value.1| < FieldLimit &&
                        png == Signature + Chunk(IhdrTag, r.value.0) + Chunk(IdatTag, r.value.1) + Iend
  {
    if |png| < 8 || png[..8] != Signature then None
    else match ParseChunk(png[8..])
      case None => None
      case Some(ihdr) =>
        if ihdr.tag != IhdrTag then None
        else match ParseChunk(ihdr.rest)
          case None => None
          case Some(idat) =>
            if idat.tag != IdatTag || idat.rest != Iend then None
            else
              JoinParts(png, 8, Chunk(ihdr.tag, ihdr.data), Chunk(idat.tag, idat.data), ihdr.rest, idat.rest);
              Some((ihdr.data, idat.data))
  }

  /** `s` cut at `n` into a head and `x + y + z`. */
  lemma JoinParts(s: seq<Byte>, n: nat, x: seq<Byte>, y: seq<Byte>, mid: seq<Byte>, z: seq<Byte>)
    requires n <= |s| && s[n..] == x + mid && mid == y + z
    ensures s == s[..n] + x + y + z
  {
    assert s == s[..n] + s[n..];
  }

  /** The width and height of IHDR data declaring 8-bit RGBA, no
      interlace. */
  function ReadHeader(ihdr: seq<Byte>): (r: Option<(nat, nat)>)
    ensures r.Some? ==> r.value.0 < FieldLimit && r.value.1 < FieldLimit &&
                        ihdr == IhdrData(r.value.0, r.value.1)
  {
    if |ihdr| != 13 || ihdr[8..] != IhdrTail then None
    else
      var w, h := ReadU32BE(ihdr, 0), ReadU32BE(ihdr, 4);
      assert ihdr == ihdr[0..4] + ihdr[4..8] + ihdr[8..];
      Some((w, h))
  }

  /** Reads back a file `WritePng` could have written. */
  function ReadPng(png: seq<Byte>, inflate: seq<Byte> -> seq<Byte>): (r: Option<Image>)
    ensures r.Some? ==> |r.value.rgba| == 4 * Mul(r.value.height, r.value.width)
  {
    match ReadChunks(png)
    case None => None
    case Some((ihdr, z)) =>
      match ReadHeader(ihdr)
      case None => None
      case Some((w, h)) =>
        match Unfilter(w, h, inflate(z))
        case None => None
        case Some(rgba) => Some(Image(w, h, rgba))
  }

  // ---------------------------------------------------------------------
  // Proofs
  // ---------------------------------------------------------------------

  /** The IEND chunk is the same twelve bytes in every file. */
  lemma IendChunk()
    ensures Chunk(IendTag, []) == Iend
  {
    EmptyChunk(IendTag);
    IendCrcField();
  }

  /** A chunk without data: zero length, the type, and the type's CRC. */
  lemma EmptyChunk(tag: seq<Byte>)
    requires |tag| == 4
    ensures Chunk(tag, []) == [0, 0, 0, 0] + tag + Be32(Crc32(tag))
  {
    assert tag + [] == tag;
    assert Be32(0) == [0, 0, 0, 0];
  }

  lemma IendCrcField()
    ensures Be32(Crc32(IendTag)) == [0xAE, 0x42, 0x60, 0x82]
  {
    IendCrc();
    Be32Digits(0xAE, 0x42, 0x60, 0x82);
  }

  /** A chunk followed by anything parses back to its type and data. */
  lemma ParseChunkOfChunk(tag: seq<Byte>, data: seq<Byte>, rest: seq<Byte>)
    requires |tag| == 4 && |data| < FieldLimit
    ensures ParseChunk(Chunk(tag, data) + rest) == Some(Parsed(tag, data, rest))
  {
    var s := Chunk(tag, data) + rest;
    var n := |data|;
    ChunkFields(tag, data, rest);
    ReadU32BEAt(s, 0, n);
    ReadU32BEAt(s, 8 + n, Crc32(tag + data));
  }

  /** Where the four fields of a chunk sit when something follows it. */
  lemma ChunkFields(tag: seq<Byte>, data: seq<Byte>, rest: seq<Byte>)
    requires |tag| == 4 && |data| < FieldLimit
    ensures var s, n := Chunk(tag, data) + rest, |data|;
            && s[0..4] == Be32(n) && s[4..8] == tag && s[8..8 + n] == data
            && s[8 + n..12 + n] == Be32(Crc32(tag + data)) && s[12 + n..] == rest
  {
    var n := |data|;
    var a, d := Be32(n), Be32(Crc32(tag + data));
    var s := a + tag + data + d + rest;
    assert Chunk(tag, data) + rest == s;
    assert s[0..4] == a;
    assert s[4..8] == tag;
    assert s[8..8 + n] == data;
    assert s[8 + n..12 + n] == d;
    assert s[12 + n..] == rest;
  }

  /** With a well-sized buffer, `h` scanlines take `h * (1 + 4 * width)`
      bytes. */
  lemma {:induction false} ScanlinesLength(w: nat, h: nat, rgba: seq<Byte>)
    requires 4 * Mul(h, w) <= |rgba|
    ensures |Scanlines(w, h, rgba)| == Mul(h, 1 + 4 * w)
  {
    if h > 0 {
      MulRowMono(h - 1, h, w);
      ScanlinesLength(w, h - 1, rgba);
    }
  }

  /** Unfiltering the first `h` scanlines gives back the first `h` rows of
      the pixel buffer. */
  lemma {:induction false} UnfilterScanlines(w: nat, h: nat, rgba: seq<Byte>)
    requires 4 * Mul(h, w) <= |rgba|
    ensures Unfilter(w, h, Scanlines(w, h, rgba)) == Some(rgba[..4 * Mul(h, w)])
  {
    if h > 0 {
      var lo, hi := 4 * Mul(h - 1, w), 4 * Mul(h, w);
      assert Mul(h, w) == Mul(h - 1, w) + w;
      var raw, prev, row := Scanlines(w, h, rgba), Scanlines(w, h - 1, rgba), rgba[lo..hi];
      assert raw == prev + [FilterNone] + row;
      UnfilterScanlines(w, h - 1, rgba);
      UnfilterRow(w, h, prev, rgba[..lo], row);
      PrefixExtend(rgba, lo, hi);
    }
  }

  /** One more scanline of filter type 0 adds its bytes to the pixels. */
  lemma UnfilterRow(w: nat, h: nat, prev: seq<Byte>, pixels: seq<Byte>, row: seq<Byte>)
    requires h > 0 && |row| == 4 * w
    requires Unfilter(w, h - 1, prev) == Some(pixels)
    ensures Unfilter(w, h, prev + [FilterNone] + row) == Some(pixels + row)
  {
    var raw := prev + [FilterNone] + row;
    var n := 1 + 4 * w;
    assert raw[..|raw| - n] == prev;
    assert raw[|raw| - n] == FilterNone;
    assert raw[|raw| - n + 1..] == row;
  }

  lemma SplitAt(a: seq<Byte>, b: seq<Byte>)
    ensures (a + b)[..|a|] == a && (a + b)[|a|..] == b
  {
  }

  lemma PrefixExtend(s: seq<Byte>, lo: nat, hi: nat)
    requires lo <= hi <= |s|
    ensures s[..lo] + s[lo..hi] == s[..hi]
  {
  }

  /** The file layout `write_png` uses: signature, IHDR, one IDAT, IEND. */
  function Layout(w: nat, h: nat, z: seq<Byte>): seq<Byte>
    requires w < FieldLimit && h < FieldLimit && |z| < FieldLimit
  {
    Signature + Chunk(IhdrTag, IhdrData(w, h)) + Chunk(IdatTag, z) + Iend
  }

  /** The chunk reader recovers the IHDR and IDAT data of the layout. */
  lemma ReadChunksOfLayout(w: nat, h: nat, z: seq<Byte>)
    requires w < FieldLimit && h < FieldLimit && |z| < FieldLimit
    ensures ReadChunks(Layout(w, h, z)) == Some((IhdrData(w, h), z))
  {
    TwoChunks(IhdrTag, IhdrData(w, h), IdatTag, z, Iend);
  }

  /** The header reader recovers the dimensions the header was built from. */
  lemma ReadHeaderOfIhdr(w: nat, h: nat)
    requires w < FieldLimit && h < FieldLimit
    ensures ReadHeader(IhdrData(w, h)) == Some((w, h))
  {
    var ihdr := IhdrData(w, h);
    ReadU32BEAt(ihdr, 0, w);
    ReadU32BEAt(ihdr, 4, h);
  }

  /** The reader accepts the writer's layout whatever the compressed
      stream, recovers the dimensions from IHDR, and is then exactly as
      successful as unfiltering the inflated IDAT data. */
  lemma ReadLayout(w: nat, h: nat, z: seq<Byte>, inflate: seq<Byte> -> seq<Byte>)
    requires w < FieldLimit && h < FieldLimit && |z| < FieldLimit
    ensures ReadPng(Layout(w, h, z), inflate) ==
            match Unfilter(w, h, inflate(z))
            case None => None
            case Some(rgba) => Some(Image(w, h, rgba))
  {
    ReadChunksOfLayout(w, h, z);
    ReadHeaderOfIhdr(w, h);
  }

  /** A signature, two chunks and a tail: the chunks parse back one by one. */
  lemma TwoChunks(t1: seq<Byte>, d1: seq<Byte>, t2: seq<Byte>, d2: seq<Byte>, rest: seq<Byte>)
    requires |t1| == 4 && |t2| == 4 && |d1| < FieldLimit && |d2| < FieldLimit
    ensures var s := Signature + Chunk(t1, d1) + Chunk(t2, d2) + rest;
            && s[..8] == Signature
            && ParseChunk(s[8..]) == Some(Parsed(t1, d1, Chunk(t2, d2) + rest))
            && ParseChunk(Chunk(t2, d2) + rest) == Some(Parsed(t2, d2, rest))
  {
    var c1, c2 := Chunk(t1, d1), Chunk(t2, d2);
    assert Signature + c1 + c2 + rest == Signature + (c1 + (c2 + rest));
    SplitAt(Signature, c1 + (c2 + rest));
    ParseChunkOfChunk(t1, d1, c2 + rest);
    ParseChunkOfChunk(t2, d2, rest);
  }

  /** Reading back what `write_png` wrote gives the same dimensions and
      pixels, whenever `inflate` undoes `compress` on the scanlines. */
  lemma ReadWritePng(w: nat, h: nat, rgba: seq<Byte>, compress: seq<Byte> -> seq<Byte>, inflate: seq<Byte> -> seq<Byte>)
    requires |rgba| == 4 * Mul(h, w)
    requires inflate(compress(Scanlines(w, h, rgba))) == Scanlines(w, h, rgba)
    requires WritePng(w, h, rgba, compress).Success?
    ensures ReadPng(WritePng(w, h, rgba, compress).value, inflate) == Some(Image(w, h, rgba))
  {
    var z := compress(Scanlines(w, h, rgba));
    assert WritePng(w, h, rgba, compress).value == Layout(w, h, z);
    ReadLayout(w, h, z, inflate);
    UnfilterScanlines(w, h, rgba);
    assert rgba[..4 * Mul(h, w)] == rgba;
  }
}
