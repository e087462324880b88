/** `convert_bimage`: a BIMAGE texture file is a header holding a
    big-endian 16-bit width at 0x0E, a big-endian 16-bit height at 0x12 and
    a format byte at 0x23, followed from 0x48 by block-compressed pixel
    data. Format 0x0B is DXT5 (BC3), 0x0A is DXT1 (BC1); anything else is
    refused. The pixels are decompressed to RGBA and written as a PNG.

    The source reports every failure as `False`, whether a read runs past
    the end of the file (`struct.error`, `IndexError`), the format is
    unknown, or `struct.pack` overflows; the model names each case. */
module Bimage {
  import opened Bytes
  import opened Results
  import opened Arith
  import opened Tiling
  import opened Png

  const WidthAt: nat := 0x0E
  const HeightAt: nat := 0x12
  const FormatAt: nat := 0x23
  const DataAt: nat := 0x48

  const FormatDxt1: Byte := 0x0A
  const FormatDxt5: Byte := 0x0B

  datatype Header = Header(width: U16, height: U16, format: Byte)

  datatype ConvertError =
    | Truncated            // the file ends before the format byte
    | UnknownFormat(code: Byte)
    | PngOverflow          // `struct.pack('>I', ...)` refuses a field

  /** The three header fields, or `Truncated` when the file is too short to
      hold them: the width read needs 0x10 bytes, the height read 0x14 and
      the format read 0x24, so the last decides. */
  function ParseHeader(file: seq<Byte>): (r: Result<Header, ConvertError>)
    ensures r.Success? <==> |file| > FormatAt
    ensures r.Failure? ==> r.error == Truncated
    ensures r.Success? ==>
              && Be16(r.value.width) == file[WidthAt..WidthAt + 2]
              && Be16(r.value.height) == file[HeightAt..HeightAt + 2]
              && r.value.format == file[FormatAt]
  {
    if |file| < WidthAt + 2 || |file| < HeightAt + 2 || |file| < FormatAt + 1 then Failure(Truncated)
    else Success(Header(ReadU16BE(file, WidthAt), ReadU16BE(file, HeightAt), file[FormatAt]))
  }

  /** `f.seek(0x48); f.read()`: everything from 0x48 on, and nothing when
      the file is shorter (seeking past the end is allowed). */
  function Payload(file: seq<Byte>): (r: seq<Byte>)
    ensures |file| >= DataAt ==> file == file[..DataAt] + r
    ensures |file| <= DataAt ==> r == []
  {
    if |file| <= DataAt then [] else file[DataAt..]
  }

  /** The RGBA pixels of the image the header describes, decompressed with
      the decoder its format byte selects. */
  function DecodeImage(header: Header, payload: seq<Byte>): (r: Result<seq<Byte>, ConvertError>)
    ensures r.Failure? <==> header.format != FormatDxt1 && header.format != FormatDxt5
    ensures r.Failure? ==> r.error == UnknownFormat(header.format)
    ensures r.Success? ==> |r.value| == 4 * Mul(header.height, header.width)
  {
    if header.format == FormatDxt5 then Success(DecompressDxt5(payload, header.width, header.height))
    else if header.format == FormatDxt1 then Success(DecompressDxt1(payload, header.width, header.height))
    else Failure(UnknownFormat(header.format))
  }

  /** The PNG file `convert_bimage` writes for `file`, given the
      compressor standing in for `zlib.compress(raw, 9)`. A file with a
      readable header and a known format converts unless the compressed
      scanlines are too long for the 32-bit IDAT length field. */
  function ConvertBimage(file: seq<Byte>, compress: seq<Byte> -> seq<Byte>): (r: Result<seq<Byte>, ConvertError>)
    ensures r == Failure(Truncated) <==> |file| <= FormatAt
    ensures r.Failure? && r.error.UnknownFormat? <==>
              |file| > FormatAt && file[FormatAt] != FormatDxt1 && file[FormatAt] != FormatDxt5
    ensures r.Failure? && r.error.UnknownFormat? ==> r.error.code == file[FormatAt]
    ensures r == Failure(PngOverflow) <==>
              && |file| > FormatAt
              && (file[FormatAt] == FormatDxt1 || file[FormatAt] == FormatDxt5)
              && |compress(Scanlines(ReadU16BE(file, WidthAt), ReadU16BE(file, HeightAt),
                                     DecodeImage(ParseHeader(file).value, Payload(file)).value))| >= FieldLimit
    ensures r.Success? ==> |r.value| >= 57 && r.value[..8] == Signature && r.value[|r.value| - 12..] == Iend
  {
    match ParseHeader(file)
    case Failure(e) => Failure(e)
    case Success(header) =>
      match DecodeImage(header, Payload(file))
      case Failure(e) => Failure(e)
      case Success(rgba) =>
        match WritePng(header.width, header.height, rgba, compress)
        case Failure(_) => Failure(PngOverflow)
        case Success(png) => Success(png)
  }

  // ---------------------------------------------------------------------
  // A header builder, the parser's partner
  // ---------------------------------------------------------------------

  /** A file with the given header fields, zeros elsewhere in the header,
      and `payload` from 0x48 on. */
  function BuildBimage(header: Header, payload: seq<Byte>): (r: seq<Byte>)
    ensures |r| == DataAt + |payload|
  {
    Zeros(WidthAt) + Be16(header.width) + Zeros(HeightAt - WidthAt - 2) + Be16(header.height)
    + Zeros(FormatAt - HeightAt - 2) + [header.format] + Zeros(DataAt - FormatAt - 1) + payload
  }

  /** Parsing a built file gives back its header and its payload. */
  lemma ParseBuiltBimage(header: Header, payload: seq<Byte>)
    ensures ParseHeader(BuildBimage(header, payload)) == Success(header)
    ensures Payload(BuildBimage(header, payload)) == payload
  {
    var f := BuildBimage(header, payload);
    var p0 := Zeros(WidthAt);
    var p1 := p0 + Be16(header.width);
    var p2 := p1 + Zeros(HeightAt - WidthAt - 2) + Be16(header.height);
    var p3 := p2 + Zeros(FormatAt - HeightAt - 2) + [header.format];
    var p4 := p3 + Zeros(DataAt - FormatAt - 1);
    assert f == p4 + payload;
    assert f[WidthAt..WidthAt + 2] == Be16(header.width);
    assert f[HeightAt..HeightAt + 2] == Be16(header.height);
    assert f[FormatAt] == header.format;
    var r := ParseHeader(f).value;
    Be16Injective(r.width, header.width);
    Be16Injective(r.height, header.height);
    assert f[DataAt..] == payload;
  }

  // ---------------------------------------------------------------------
  // End to end
  // ---------------------------------------------------------------------

  /** Reading back the PNG `convert_bimage` wrote, with an `inflate` that
      undoes `compress`, gives an image of the header's width and height
      whose pixels are the payload decompressed with the decoder the format
      byte names. */
  lemma ConvertRoundTrip(file: seq<Byte>, compress: seq<Byte> -> seq<Byte>, inflate: seq<Byte> -> seq<Byte>)
    requires ConvertBimage(file, compress).Success?
    requires forall raw :: inflate(compress(raw)) == raw
    ensures |file| > FormatAt
    ensures var w, h := ReadU16BE(file, WidthAt), ReadU16BE(file, HeightAt);
            ReadPng(ConvertBimage(file, compress).value, inflate) ==
            Some(Image(w, h, if file[FormatAt] == FormatDxt1 then DecompressDxt1(Payload(file), w, h)
                             else DecompressDxt5(Payload(file), w, h)))
  {
    var header := ParseHeader(file).value;
    var rgba := DecodeImage(header, Payload(file)).value;
    ReadWritePng(header.width, header.height, rgba, compress, inflate);
  }
}
