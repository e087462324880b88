# ID-Tech-5 asset converters: the integer core in Dafny

This project models the integer logic inside three Python scripts that
convert ID-Tech-5 game assets. It proves properties of that logic.

- `bimage.py` converts a BIMAGE texture to PNG. It reads a small big-endian
  header (width at 0x0E, height at 0x12, format byte at 0x23, pixel data from
  0x48). It decodes the S3TC block-compressed pixel data, DXT1/BC1 or
  DXT5/BC3, into an RGBA buffer. Then it writes a minimal PNG: the signature,
  IHDR, one IDAT holding the filter-0 scanlines after compression, and IEND,
  each chunk with its CRC-32.
- `bmodel.py` and `bmd6model.py` find each mesh part of a model file by a
  marker byte pattern. They read the vertex count and the face count at fixed
  offsets behind the marker, step over the vertex block, and read the index
  buffer.
  - `bmodel.py` reads the indices as triangle strips separated by the
    terminator word 0xFFFF.
  - `bmd6model.py` reads them as a plain triangle list.

Modules, one file each:

| module | file | models |
|---|---|---|
| `Results` | results.dfy | `Option` and `Result` |
| `Bytes` | bytes.dfy | byte and word types; little- and big-endian reads; substring search |
| `Arith` | arith.dfy | `Mul`, a recursive product, and monotonicity facts about it |
| `BlockCodec` | blockcodec.dfy | RGB565 expansion, palettes, the alpha ramp, index fields, the BC1 and BC3 block decoders |
| `Tiling` | tiling.dfy | the block-grid walk shared by `decompress_dxt1` and `decompress_dxt5` |
| `Crc` | crc32.dfy | the bitwise CRC-32 of section 5.5 of the PNG specification (ISO/IEC 15948) |
| `Png` | png.dfy | `write_png`, plus a reader that is its partner |
| `Bimage` | bimage.dfy | the header layout and format dispatch of `convert_bimage` |
| `Mesh` | mesh.dfy | faces, `flip_faces`, big-endian word buffers, the shape of an extracted part |
| `Bmodel` | bmodel.dfy | `find_buffer_marker`, `extract_triangle_strip_faces`, and the offset layout of `extract_model` in `bmodel.py` |
| `Bmd6` | bmd6.dfy | `find_buffer_marker`, and the offset layout and face loop of `extract_model` in `bmd6model.py` |

Some functions of the scripts have no pure form.
- `zlib.compress` is a parameter `compress` of the PNG writer. The round-trip
  lemmas take an `inflate` that undoes it.
- A short read raises `struct.error` or `IndexError` in Python. Every such
  failure becomes an explicit result value:
  - `Truncated` from the texture header;
  - `ShortRead` from a mesh part.
- `struct.pack` overflowing a 32-bit field becomes `FieldOverflow` in the PNG
  writer and `PngOverflow` in the converter.
- The low-level readers (`read_int16_be` and friends) carry the bound the
  slice needs as a precondition. Every caller establishes that bound before
  reading.

Two behaviours of the code are worth stating plainly.
- **BC3 alpha ramp.** For `a0 = 255, a1 = 0` the loop at bimage.py:86-87,
  with `i` running from 1 to 6 and truncating division, gives
  `[255, 0, 218, 182, 145, 109, 72, 36]`. `BlockCodec.AlphaRampFullRange`
  proves this.
- **Rejections.** The code reports no error for a zero width or height (the
  decoders then return an empty buffer), nor for an RGBA buffer of the
  wrong size (`write_png` slices it as it is). The only check on the
  header's values is the format byte (bimage.py:192-194). A file that ends
  before 0x24, or a PNG field that overflows 32 bits, fails through the
  exception handler at bimage.py:204-206 (`Truncated`, `PngOverflow`).

## Model

| member | source | states |
|---|---|---|
| `BlockCodec.Expand5` | bimage.py:26-28 | `v * 255 // 31` is a byte; 0 expands to 0 and the maximum 31 to 255 |
| `BlockCodec.Expand6` | bimage.py:27 | `v * 255 // 63` is a byte; 0 expands to 0 and the maximum 63 to 255 |
| `BlockCodec.Expand5Injective` | bimage.py:26-28 | 5-bit expansion is strictly increasing, so no two 5-bit values share a byte |
| `BlockCodec.Expand6Injective` | bimage.py:27 | 6-bit expansion is strictly increasing, so no two 6-bit values share a byte |
| `BlockCodec.Expand5Inverse` | bimage.py:26-28 | rounding back to 5 bits undoes the expansion of every 5-bit value, 0 included |
| `BlockCodec.Expand6Inverse` | bimage.py:27 | rounding back to 6 bits undoes the expansion of every 6-bit value, 0 included |
| `BlockCodec.Endpoint` | bimage.py:25-29 | an expanded endpoint colour is opaque (alpha 255) |
| `BlockCodec.EndpointRoundTrip` | bimage.py:19-29 | re-packing the rounded channels of an expanded endpoint gives back the packed 16-bit value, so no two endpoints expand to the same colour |
| `BlockCodec.Third` | bimage.py:33-44 | the truncated third `(2a + b) // 3` lies between `a` and `b` |
| `BlockCodec.Half` | bimage.py:46-51 | the truncated average `(a + b) // 2` lies between `a` and `b` |
| `BlockCodec.FourColourPalette` | bimage.py:105-114 | four entries: the two endpoints, then two opaque entries each channel of which lies between the endpoints' |
| `BlockCodec.Bc1Palette` | bimage.py:32-52 | entries 0 and 1 are the endpoints; an entry is transparent exactly when `c0 <= c1` on the raw packed values and it is entry 3, and it is then `(0, 0, 0, 0)`; every other entry is opaque and between the endpoints |
| `BlockCodec.Lerp` | bimage.py:86-90 | `((n - i) * a0 + i * a1) // n` lies between `a0` and `a1` |
| `BlockCodec.LerpStep` | bimage.py:85-90 | consecutive interpolation steps move monotonically from `a0` towards `a1` |
| `BlockCodec.AlphaRamp` | bimage.py:84-91 | eight entries starting `a0, a1`; with `a0 > a1` entries 2..7 descend from at most `a0` to at least `a1`; otherwise entries 2..5 ascend between `a0` and `a1` and entries 6 and 7 are 0 and 255 |
| `BlockCodec.AlphaRampFullRange` | bimage.py:85-87 | for `a0 = 255, a1 = 0` the ramp is `[255, 0, 218, 182, 145, 109, 72, 36]` |
| `BlockCodec.ColourIndex` | bimage.py:60 | the 2-bit colour index of pixel `k` is below 4 |
| `BlockCodec.AlphaIndex` | bimage.py:122 | the 3-bit alpha index of pixel `k` is below 8 |
| `BlockCodec.AlphaBits` | bimage.py:82 | the u64 of block bytes 0..7 shifted right by 16 is exactly bytes 2..7 read little-endian |
| `BlockCodec.DecodeBc1` | bimage.py:19-62 | 16 pixels; pixel `k` is the palette entry its 2-bit index selects; it is transparent black exactly when the block is in three-colour mode and its index is 3; every other pixel is opaque, each channel between the endpoints' |
| `BlockCodec.Bc1EqualEndpoints` | bimage.py:45-52 | with equal endpoints, every pixel is that endpoint colour, except the index-3 pixels, which are transparent black |
| `BlockCodec.DecodeBc3` | bimage.py:80-126 | 16 pixels; the alpha of pixel `k` is the ramp entry its 3-bit index selects; its colour is the four-colour palette entry its 2-bit index selects, whatever the endpoint order |
| `BlockCodec.Bc3ColourIsBc1FourColour` | bimage.py:94-114 | when `c0 > c1`, a BC3 block's colours equal the BC1 decoding of its colour half |
| `Tiling.WritePatchSpec` | bimage.py:55-62 | writing slots `k` to 15 of a 4x4 patch changes exactly the in-range pixels of that block whose slot is at least `k`, each to the patch entry of its own slot |
| `Tiling.WriteBlockSpec` | bimage.py:15-17 | visiting a block changes pixel `(x, y)` exactly when the pixel lies in that block and the block's bytes are all present |
| `Tiling.AssembleRowSpec` | bimage.py:14-62 | after the first `n` blocks of a block row, each pixel of those blocks holds its block's decoded pixel or, if the block is missing, its old value; every other pixel is unchanged |
| `Tiling.AssembleSpec` | bimage.py:8-62 | after the first `rows` block rows of the walk, a pixel holds its expected value if its row was visited, and zero otherwise |
| `Tiling.DecodePixels` | bimage.py:8-62 | the finished buffer holds, at each in-range pixel, the pixel its own block decodes to at its slot, or transparent black if that block lies past the end of the data |
| `Tiling.FlattenAt` | bimage.py:61-62 | the four bytes at `(y * width + x) * 4` of the flattened buffer are pixel `(x, y)` |
| `Tiling.Decompress` | bimage.py:8-64 | the output is `width * height * 4` bytes, and the four at `(y * width + x) * 4` are the pixel its block decodes to at its slot, or zeros when that block lies past the data |
| `Tiling.DecompressDxt1` | bimage.py:6-64 | `width * height * 4` bytes; pixel `(x, y)` is the BC1 decoding of the 8-byte block at `8 * ((y // 4) * ceil(width / 4) + x // 4)` at slot `(y % 4) * 4 + x % 4`, or zeros when that block's bytes run past the data |
| `Tiling.DecompressDxt5` | bimage.py:66-128 | the same for BC3 with 16-byte blocks |
| `Tiling.DecodedSize` | bimage.py:8-62 | both decoders return `width * height * 4` bytes, and pixel `(x, y)` starts at byte `(y * width + x) * 4` |
| `Tiling.PixelHasUniqueSource` | bimage.py:13-14 | each in-range pixel lies in the `ceil(width/4) x ceil(height/4)` grid, and exactly one (block, slot) pair of the walk targets it |
| `Tiling.BlockOffsetsDistinct` | bimage.py:15-16 | the byte ranges of distinct blocks do not overlap |
| `Crc.Crc32` | bimage.py:143 | the CRC fits in 32 bits (`& 0xffffffff`) |
| `Crc.UpdateAppend` | bimage.py:143 | feeding `a + b` into the CRC register is feeding `a`, then `b` |
| `Crc.IendCrc` | bimage.py:157 | the CRC of `IEND` is `0xAE426082` |
| `Png.Chunk` | bimage.py:142-143 | a chunk is `12 + len(data)` bytes, with the type at bytes 4..8 and the data after it |
| `Png.IhdrData` | bimage.py:141 | IHDR data is 13 bytes ending in bit depth 8, colour type 6 and three zeros |
| `Png.Slice` | bimage.py:149 | Python slicing: `s[lo:hi]` when the bounds fit, `s[lo:]` when only `hi` runs past the end, and empty when `lo` is at or past the end or `hi <= lo` |
| `Png.WritePng` | bimage.py:130-157 | succeeds exactly when width, height and the compressed length fit in 32 bits; the file is `57 + len(compressed)` bytes, starts with the signature and ends with the IEND chunk |
| `Png.ParseChunk` | bimage.py:142-143 | a successfully parsed chunk is a well-formed chunk with a correct CRC, followed by the rest of the input |
| `Png.ParseChunkOfChunk` | bimage.py:142-143 | a chunk followed by anything parses back to its type and data |
| `Png.IendChunk` | bimage.py:156-157 | the IEND chunk is `00 00 00 00 49 45 4E 44 AE 42 60 82` |
| `Png.ScanlinesLength` | bimage.py:146-149 | with a `width * height * 4` buffer, the scanline stream is `height * (1 + 4 * width)` bytes |
| `Png.UnfilterScanlines` | bimage.py:146-149 | removing the filter-0 bytes from the scanline stream gives back the pixel buffer |
| `Png.ReadChunks` | bimage.py:138-157 | the chunk reader accepts only files of the shape signature, IHDR, IDAT, IEND |
| `Png.ReadHeader` | bimage.py:141 | the header reader accepts only IHDR data declaring 8-bit RGBA |
| `Png.ReadChunksOfLayout` | bimage.py:138-157 | the chunk reader recovers the IHDR and IDAT data of the writer's layout |
| `Png.ReadHeaderOfIhdr` | bimage.py:141 | the header reader recovers the width and height IHDR was built from |
| `Png.ReadLayout` | bimage.py:138-157 | reading the writer's layout succeeds exactly when unfiltering the inflated IDAT succeeds, with the IHDR dimensions |
| `Png.ReadWritePng` | bimage.py:130-157 | reading back what `write_png` wrote gives the same width, height and pixels, whenever `inflate` undoes `compress` |
| `Bytes.ReadU16BE` | bmodel.py:23-25 | the word read at `o` is the one whose big-endian bytes are `data[o..o+2]` |
| `Bytes.ReadU16BEAt` | bmd6model.py:23-25 | a word's big-endian bytes, wherever they sit, read back as that word |
| `Bimage.ParseHeader` | bimage.py:164-176 | succeeds exactly when the file reaches the format byte at 0x23; the width and height are the big-endian words at 0x0E and 0x12 |
| `Bimage.Payload` | bimage.py:178-180 | the pixel data is everything from 0x48 on, or nothing when the file is shorter |
| `Bimage.DecodeImage` | bimage.py:186-194 | fails exactly for format bytes other than 0x0A and 0x0B, naming the byte; otherwise yields `width * height * 4` bytes |
| `Bimage.ConvertBimage` | bimage.py:162-206 | `Truncated` exactly when the file ends before 0x24; `UnknownFormat` exactly when the format byte is neither 0x0A nor 0x0B; `PngOverflow` exactly when the header is readable, the format is known and the compressed scanlines reach 2^32 bytes, so every other file converts; a success is a PNG framed by the signature and IEND |
| `Bimage.ParseBuiltBimage` | bimage.py:166-180 | parsing a file built from a header and a payload gives back both |
| `Bimage.ConvertRoundTrip` | bimage.py:162-202 | reading back the converted PNG gives the header's width and height, and the payload decoded with the decoder the format byte selects |
| `Mesh.FlipFacesInvolution` | bmd6model.py:49-51 | flipping twice gives back the original list |
| `Mesh.FlipReversesEdges` | bmodel.py:45-47 | a flipped face walks the same edges in the opposite direction |
| `Mesh.ReadWords` | bmodel.py:119-144 | `n` words, word `i` read at `o + 2 * i`; nothing is read when `n` is 0 |
| `Mesh.ReadEncodedWords` | bmodel.py:119-144 | words encoded big-endian anywhere in a buffer read back as themselves |
| `Mesh.ReadTriangles` | bmd6model.py:201-210 | `n` faces; face `i` is the three words at `o + 6 * i`, `+ 2` and `+ 4` |
| `Mesh.ReadEncodedTriangles` | bmd6model.py:201-210 | a triangle list encoded anywhere in a buffer reads back as itself |
| `Mesh.CountWordsAt` | bmodel.py:178-188 | a counts block (vertex count, two skipped bytes, face count) reads back as its two counts wherever it sits |
| `Bmodel.FindBufferMarker` | bmodel.py:106-109 | the least index at or after `start` where `FF FF FF FF` occurs, or -1 exactly when there is none |
| `Bmodel.ConvertStrip` | bmodel.py:127-134 | the conversion loop yields exactly the strip's triangles |
| `Bmodel.ExtractTriangleStripFaces` | bmodel.py:111-160 | the loop consumes exactly `face_count` words and returns `offset + 2 * face_count`; its faces are the strip decoding of those words, so the safety break never fires |
| `Bmodel.NoTerminatorInFaces` | bmodel.py:122-142 | no face has the terminator 0xFFFF as a corner |
| `Bmodel.FaceCountBound` | bmodel.py:119-158 | there are never more faces than words read |
| `Bmodel.StripWindingConsistent` | bmodel.py:129-134 | consecutive triangles of a strip share an edge walked in opposite directions, so they wind the same way |
| `Bmodel.ShortStripCarriesOver` | bmodel.py:122-136 | a terminator after fewer than three pending indices leaves the whole state unchanged, so the short strip stays pending and opens the next one |
| `Bmodel.ShortStripExample` | bmodel.py:122-144 | on `[1, 2, T, 3, T]` the carried-over indices yield the face `(1, 2, 3)` |
| `Bmodel.PendingGrows` | bmodel.py:142-144 | words other than the terminator are appended to the pending strip in order and emit no face |
| `Bmodel.StripClosed` | bmodel.py:122-134 | a terminator after at least three pending indices emits that strip's triangles and empties the strip |
| `Bmodel.RunOfStrips` | bmodel.py:119-144 | feeding a buffer of proper strips (three or more indices, no terminator), each closed by a terminator, ends with the strips' triangles in order and nothing pending |
| `Bmodel.StripFacesOfStrips` | bmodel.py:119-160 | the decoded faces of such a buffer are exactly the strips' triangles, strip after strip |
| `Bmodel.ExtractModel` | bmodel.py:162-172 | no part exactly when no marker follows `start`; otherwise the part behind the first marker |
| `Bmodel.ExtractAt` | bmodel.py:176-236 | a short read exactly when a count, a vertex float or an index lies past the end; otherwise the vertex count is read at marker+10 and the index count at marker+14; vertices start at marker+60 with stride 32 and indices follow them; the reported face count is `len(faces)`; the next offset lies past the marker |
| `Bmodel.ExtractionAdvances` | bmodel.py:228-236 | the next search offset lies past the start offset |
| `Bmodel.ExtractAtFits` | bmodel.py:176-236 | when the counts read `vc` and `len(ws)`, the index buffer reads `ws` and ends inside the data, the part is extracted with exactly those counts and the strip decoding of `ws` |
| `Bmodel.ExtractBuiltPart` | bmodel.py:176-236 | a part built from a vertex count and an index buffer, placed anywhere in a file, is extracted with that vertex count and the strip decoding of that buffer, and the search resumes right after it |
| `Bmd6.FindBufferMarker` | bmd6model.py:123-126 | the least index at or after `start` where `00 00 00 01 00 00` occurs, or -1 exactly when there is none |
| `Bmd6.ExtractFaces` | bmd6model.py:197-210 | the face loop reads `face_count` triangles six bytes apart and returns `offset + 6 * face_count` |
| `Bmd6.ExtractModel` | bmd6model.py:128-139 | no part exactly when no marker follows `start`; otherwise the part behind the first marker |
| `Bmd6.ExtractAt` | bmd6model.py:143-223 | a short read exactly when a count, a vertex float or a face lies past the end; otherwise the vertex count is read at marker+6 and the face count at marker+10; vertices start at marker+36 with stride 32; face `i` is the three words at `faceStart + 6 * i`; the face count is the header's and equals `len(faces)`; the next offset is `faceStart + 6 * face_count`, past the marker |
| `Bmd6.ExtractionAdvances` | bmd6model.py:214-223 | the next search offset lies past the start offset |
| `Bmd6.ExtractAtFits` | bmd6model.py:143-223 | when the counts read `vc` and `len(faces)`, the triangle list reads `faces` and ends inside the data, the part is extracted with exactly those counts and faces |
| `Bmd6.ExtractBuiltPart` | bmd6model.py:143-223 | a part built from a vertex count and a face list, placed anywhere in a file, is extracted with that vertex count and those faces, and the search resumes right after it |

## Left out

- File and console I/O: opening, seeking, writing files, every `print`, and the
  `main` functions of all three scripts (bimage.py:208 on, bmodel.py:279 on,
  bmd6model.py:271 on). The one in bimage.py calls `convert_bimage` once per
  file named on the command line. The two mesh loops (bmodel.py:318-332,
  bmd6model.py:315-334) call `extract_model` from the returned offset until
  it finds no marker, or until a short read raises `struct.error`, which
  nothing catches; that is the `ShortRead` outcome. `ExtractionAdvances` is
  the fact that makes each round start past the previous search offset.
  There is a third way out. Each extracted part goes through
  `apply_transforms` (bmodel.py:324, bmd6model.py:324), which calls
  `calculate_vertex_normals` because `SHADE_SMOOTH` is set (bmodel.py:98-100,
  bmd6model.py:109-111). A face corner at or past `vertex_count` makes
  `vertices[face[0]]` (bmodel.py:54-56, bmd6model.py:61-63) raise an
  `IndexError` that nothing catches. For example, vertex count 0 with the
  index buffer `[0, 1, 2, 0xFFFF]` ends the script there. That code is part
  of the floating-point work left out below, so the model has no outcome for
  it: `ExtractAt` returns such a part as `Extracted`.
- Floating point:
  - `read_float_be`;
  - `rotate_x_minus_90`, `flip_uvs`, `calculate_vertex_normals` (it uses
    `sqrt`) and `apply_transforms`;
  - the float formatting of `write_obj`.
  The vertex block is modelled only as the byte span it occupies
  (`VerticesInside`).
- `zlib.compress` (RFC 1950/1951) is a function parameter; nothing is proved
  about it. The reader's `inflate` is the parameter that undoes it.
- `zlib.crc32` is replaced by the bitwise CRC-32 definition from the PNG
  specification. Equivalence with zlib's table-driven code is not proved.
- `Png.ReadPng` and the other reader functions are not in the scripts. They
  exist as partners of `write_png`, for the round-trip lemmas. The same holds
  for the part builders `Bmodel.BuildPart` and `Bmd6.BuildPart`, the
  partners of `extract_model`; their vertex entries are zero bytes.
- `wolfesntein_resources.py` and `streamed.py` are not part of this model. They
  are stream-driven I/O plumbing around a foreign decompressor and
  file-handle record copying.
- The unreachable lines after `return` at bmd6model.py:116-121 have no
  counterpart in the model.
- The order in which Python raises (the vertex floats are read before the
  indices) is not kept. All short reads of one part are collapsed into the one
  outcome `ShortRead`, and no partial part is returned.
- The safety break of `extract_triangle_strip_faces` (`bytes_read > face_count * 4`)
  is kept only as a branch proved unreachable, since the loop bound makes it dead.
- Each decoded pixel is written as a whole RGBA value.
  `decompress_dxt5` instead writes three colour bytes and then the alpha byte.
  The bytes end up the same.
