/** `bmd6model.py`: parts of a model file start at the six-byte marker
    `00 00 00 01 00 00`. The vertex count sits right after the marker (6
    bytes in), the face count 10 bytes in, the vertex entries (32 bytes
    each) 36 bytes in, and a plain triangle list of three big-endian words
    per face follows the vertices. */
module Bmd6 {
  import opened Bytes
  import opened Mesh

  const Marker: seq<Byte> := [0x00, 0x00, 0x00, 0x01, 0x00, 0x00]

  /** Offsets from the marker, as the skips after it add up. */
  const VertexCountAt: nat := 6
  const FaceCountAt: nat := 10
  const VerticesAt: nat := 36

  /** Bytes per face: three 16-bit indices. */
  const FaceSize: nat := 6

  /** `find_buffer_marker`: the least position at or after `start` where
      the marker occurs, or -1. */
  function FindBufferMarker(data: seq<Byte>, start: nat): (r: int)
    ensures r == -1 || (start <= r && r + 6 <= |data| && data[r..r + 6] == Marker)
    ensures r >= 0 ==> forall i :: start <= i < r ==> !OccursAt(data, Marker, i)
    ensures r == -1 <==> forall i :: start <= i ==> !OccursAt(data, Marker, i)
  {
    Find(data, Marker, start)
  }

  /** The face loop of `extract_model`: `faceCount` triples read at
      `offset`, six bytes apart; returns the faces and the offset after
      them. */
  method ExtractFaces(data: seq<Byte>, offset: nat, faceCount: nat) returns (faces: seq<Face>, next: nat)
    requires faceCount == 0 || offset + FaceSize * faceCount <= |data|
    ensures faces == ReadTriangles(data, offset, faceCount)
    ensures next == offset + FaceSize * faceCount
  {
    ghost var all := ReadTriangles(data, offset, faceCount);
    faces := [];
    next := offset;
    for i := 0 to faceCount
      invariant next == offset + FaceSize * i
      invariant faces == all[..i]
    {
      var idx1 := ReadU16BE(data, next);
      var idx2 := ReadU16BE(data, next + 2);
      var idx3 := ReadU16BE(data, next + 4);
      faces := faces + [Face(idx1, idx2, idx3)];
      next := next + FaceSize;
    }
  }

  /** `extract_model` without the floats: the marker, then the part
      behind it. */
  function ExtractModel(data: seq<Byte>, start: nat): (r: Extraction)
    ensures r.NoMarker? <==> FindBufferMarker(data, start) == -1
    ensures FindBufferMarker(data, start) >= start ==> r == ExtractAt(data, FindBufferMarker(data, start))
  {
    var m := FindBufferMarker(data, start);
    if m == -1 then NoMarker else ExtractAt(data, m)
  }

  /** The part whose marker sits at `m`: the two counts, the vertex block,
      and the triangle list. Unlike the strip format, the face count
      reported is the header's. */
  function ExtractAt(data: seq<Byte>, m: nat): (r: Extraction)
    ensures !r.NoMarker?
    ensures r.ShortRead? <==>
              m + FaceCountAt + 2 > |data| ||
              !VerticesInside(data, m + VerticesAt, ReadU16BE(data, m + VertexCountAt)) ||
              (ReadU16BE(data, m + FaceCountAt) > 0 &&
               m + VerticesAt + VertexStride * ReadU16BE(data, m + VertexCountAt)
                 + FaceSize * ReadU16BE(data, m + FaceCountAt) > |data|)
    ensures r.Extracted? ==>
              && r.part.vertexCount == ReadU16BE(data, m + VertexCountAt)
              && r.part.vertexStart == m + VerticesAt
              && r.part.faceStart == r.part.vertexStart + VertexStride * r.part.vertexCount
              && r.part.faceCount == ReadU16BE(data, m + FaceCountAt)
              && |r.part.faces| == r.part.faceCount
              && r.part.faces == ReadTriangles(data, r.part.faceStart, r.part.faceCount)
              && (forall i :: 0 <= i < r.part.faceCount ==>
                    r.part.faces[i] == Face(ReadU16BE(data, r.part.faceStart + 6 * i),
                                            ReadU16BE(data, r.part.faceStart + 6 * i + 2),
                                            ReadU16BE(data, r.part.faceStart + 6 * i + 4)))
              && r.next == r.part.faceStart + FaceSize * r.part.faceCount
              && r.next > m
  {
    if m + FaceCountAt + 2 > |data| then ShortRead
    else
      var vc := ReadU16BE(data, m + VertexCountAt);
      var fc := ReadU16BE(data, m + FaceCountAt);
      var vs := m + VerticesAt;
      var fs := vs + VertexStride * vc;
      if !VerticesInside(data, vs, vc) || (fc > 0 && fs + FaceSize * fc > |data|) then ShortRead
      else Extracted(Part(vc, vs, fs, ReadTriangles(data, fs, fc), fc), fs + FaceSize * fc)
  }

  /** The next search offset lies past the marker, so the part loop in the
      script always moves forward. */
  lemma ExtractionAdvances(data: seq<Byte>, start: nat)
    requires ExtractModel(data, start).Extracted?
    ensures ExtractModel(data, start).next > start
  {
  }

  // ---------------------------------------------------------------------
  // A part builder, the extractor's partner
  // ---------------------------------------------------------------------

  /** The 36 bytes from the marker to the vertex entries: the marker, the
      vertex count, two bytes the extractor skips, the face count, and
      padding. */
  function PartHeader(vc: U16, fc: U16): (r: seq<Byte>)
    ensures |r| == VerticesAt
  {
    Marker + CountWords(vc, fc) + Zeros(VerticesAt - VertexCountAt - 6)
  }

  /** A part holding `vc` zeroed vertex entries and the triangle list
      `faces`. */
  function BuildPart(vc: U16, faces: seq<Face>): (r: seq<Byte>)
    requires |faces| < 0x1_0000
    ensures |r| == VerticesAt + VertexStride * vc + FaceSize * |faces|
  {
    PartHeader(vc, |faces|) + Zeros(VertexStride * vc) + EncodeTriangles(faces)
  }

  /** Where a built part's counts and triangle list sit inside it. */
  lemma BuildPartPieces(vc: U16, faces: seq<Face>)
    requires |faces| < 0x1_0000
    ensures var b := BuildPart(vc, faces);
            && b[VertexCountAt..VertexCountAt + 6] == CountWords(vc, |faces|)
            && b[VerticesAt + VertexStride * vc..|b|] == EncodeTriangles(faces)
  {
    var header := PartHeader(vc, |faces|);
    Pieces(header, Zeros(VertexStride * vc), EncodeTriangles(faces));
    Pieces(Marker, CountWords(vc, |faces|), Zeros(VerticesAt - VertexCountAt - 6));
    SliceOfSlice(BuildPart(vc, faces), 0, VerticesAt, VertexCountAt, VertexCountAt + 6);
  }

  /** Extracting at `m`, where the bytes of a built part sit, gives back
      its vertex count and its faces, whatever surrounds it, and the
      search continues right after the triangle list. */
  lemma ExtractBuiltPart(data: seq<Byte>, m: nat, vc: U16, faces: seq<Face>)
    requires |faces| < 0x1_0000
    requires m + |BuildPart(vc, faces)| <= |data| && data[m..m + |BuildPart(vc, faces)|] == BuildPart(vc, faces)
    ensures var fs := m + VerticesAt + VertexStride * vc;
            ExtractAt(data, m) == Extracted(Part(vc, m + VerticesAt, fs, faces, |faces|), fs + FaceSize * |faces|)
  {
    BuiltPartCounts(data, m, vc, faces);
    BuiltPartFaces(data, m, vc, faces);
    ExtractAtFits(data, m, vc, faces);
  }

  /** The counts of a built part read back at their offsets. */
  lemma BuiltPartCounts(data: seq<Byte>, m: nat, vc: U16, faces: seq<Face>)
    requires |faces| < 0x1_0000
    requires m + |BuildPart(vc, faces)| <= |data| && data[m..m + |BuildPart(vc, faces)|] == BuildPart(vc, faces)
    ensures ReadU16BE(data, m + VertexCountAt) == vc && ReadU16BE(data, m + FaceCountAt) == |faces|
  {
    var n := |BuildPart(vc, faces)|;
    BuildPartPieces(vc, faces);
    SliceOfSlice(data, m, m + n, VertexCountAt, VertexCountAt + 6);
    CountWordsAt(data, m + VertexCountAt, vc, |faces|);
  }

  /** The triangle list of a built part reads back behind its vertex
      entries. */
  lemma BuiltPartFaces(data: seq<Byte>, m: nat, vc: U16, faces: seq<Face>)
    requires |faces| < 0x1_0000
    requires m + |BuildPart(vc, faces)| <= |data| && data[m..m + |BuildPart(vc, faces)|] == BuildPart(vc, faces)
    ensures m + VerticesAt + VertexStride * vc + FaceSize * |faces| <= |data|
    ensures ReadTriangles(data, m + VerticesAt + VertexStride * vc, |faces|) == faces
  {
    var n := |BuildPart(vc, faces)|;
    BuildPartPieces(vc, faces);
    SliceOfSlice(data, m, m + n, VerticesAt + VertexStride * vc, n);
    ReadTrianglesAt(data, m + VerticesAt + VertexStride * vc, faces);
  }

  /** A part whose counts read `vc` and `|faces|`, whose triangle list
      reads `faces` and ends inside the data, is extracted in full. */
  lemma ExtractAtFits(data: seq<Byte>, m: nat, vc: U16, faces: seq<Face>)
    requires m + VerticesAt + VertexStride * vc + FaceSize * |faces| <= |data|
    requires ReadU16BE(data, m + VertexCountAt) == vc && ReadU16BE(data, m + FaceCountAt) == |faces|
    requires ReadTriangles(data, m + VerticesAt + VertexStride * vc, |faces|) == faces
    ensures var fs := m + VerticesAt + VertexStride * vc;
            ExtractAt(data, m) == Extracted(Part(vc, m + VerticesAt, fs, faces, |faces|), fs + FaceSize * |faces|)
  {
  }
}
