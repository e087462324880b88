/** What the two mesh extractors share: triangles of 16-bit vertex indices,
    the winding flip (`flip_faces`), big-endian index buffers, and the shape
    of one extracted part. Vertex positions and texture coordinates are
    32-bit floats in the files; the model keeps only where they lie. */
module Mesh {
  import opened Bytes

  /** One triangle, as the tuple `(a, b, c)` of vertex indices. */
  datatype Face = Face(a: U16, b: U16, c: U16)

  /** `(f[0], f[2], f[1])`: the same corners in the opposite winding. */
  function Flip(f: Face): (r: Face)
    ensures r.a == f.a && r.b == f.c && r.c == f.b
  {
    Face(f.a, f.c, f.b)
  }

  /** `flip_faces`. */
  function FlipFaces(faces: seq<Face>): (r: seq<Face>)
    ensures |r| == |faces|
    ensures forall i :: 0 <= i < |faces| ==> r[i] == Flip(faces[i])
  {
    seq(|faces|, i requires 0 <= i < |faces| => Flip(faces[i]))
  }

  /** The directed edges a triangle's winding walks along. */
  function Edges(f: Face): set<(U16, U16)>
  {
    {(f.a, f.b), (f.b, f.c), (f.c, f.a)}
  }

  /** Every edge of `e` traversed the other way. */
  function Reversed(e: set<(U16, U16)>): set<(U16, U16)>
  {
    set p | p in e :: (p.1, p.0)
  }

  /** Flipping twice restores every face list. */
  lemma FlipFacesInvolution(faces: seq<Face>)
    ensures FlipFaces(FlipFaces(faces)) == faces
  {
  }

  /** Flipping turns a triangle over: it walks the same edges backwards. */
  lemma FlipReversesEdges(f: Face)
    ensures Edges(Flip(f)) == Reversed(Edges(f))
  {
    var e := Edges(f);
    assert (f.b, f.a) in Reversed(e) && (f.c, f.b) in Reversed(e) && (f.a, f.c) in Reversed(e);
  }

  // ---------------------------------------------------------------------
  // Big-endian index buffers
  // ---------------------------------------------------------------------

  /** `n` consecutive `read_int16_be` words starting at `o`; when `n` is 0
      nothing is read, so `o` may lie past the end. */
  function ReadWords(data: seq<Byte>, o: nat, n: nat): (r: seq<U16>)
    requires n == 0 || o + 2 * n <= |data|
    ensures |r| == n
    ensures forall i :: 0 <= i < n ==> r[i] == ReadU16BE(data, o + 2 * i)
    decreases n
  {
    if n == 0 then [] else ReadWords(data, o, n - 1) + [ReadU16BE(data, o + 2 * (n - 1))]
  }

  /** The bytes of a big-endian word buffer. */
  function EncodeWords(ws: seq<U16>): (r: seq<Byte>)
    ensures |r| == 2 * |ws|
  {
    if |ws| == 0 then [] else EncodeWords(ws[..|ws| - 1]) + Be16(ws[|ws| - 1])
  }

  /** Consecutive words taken three at a time as triangles. */
  function Group(ws: seq<U16>, n: nat): (r: seq<Face>)
    requires |ws| == 3 * n
    ensures |r| == n
    ensures forall i :: 0 <= i < n ==> r[i] == Face(ws[3 * i], ws[3 * i + 1], ws[3 * i + 2])
    decreases n
  {
    if n == 0 then []
    else Group(ws[..3 * n - 3], n - 1) + [Face(ws[3 * n - 3], ws[3 * n - 2], ws[3 * n - 1])]
  }

  /** The corners of a face list in order: `Group`'s inverse. */
  function Corners(faces: seq<Face>): (r: seq<U16>)
    ensures |r| == 3 * |faces|
  {
    if |faces| == 0 then []
    else
      var f := faces[|faces| - 1];
      Corners(faces[..|faces| - 1]) + [f.a, f.b, f.c]
  }

  /** `n` consecutive triangles of three words each, starting at `o`: face
      `i` is the words at `o + 6 * i`, `o + 6 * i + 2` and `o + 6 * i + 4`. */
  function ReadTriangles(data: seq<Byte>, o: nat, n: nat): (r: seq<Face>)
    requires n == 0 || o + 6 * n <= |data|
    ensures |r| == n
    ensures forall i :: 0 <= i < n ==>
              r[i] == Face(ReadU16BE(data, o + 6 * i), ReadU16BE(data, o + 6 * i + 2), ReadU16BE(data, o + 6 * i + 4))
  {
    var ws := ReadWords(data, o, 3 * n);
    var r := Group(ws, n);
    assert forall i :: 0 <= i < n ==> r[i] == Face(ws[3 * i], ws[3 * i + 1], ws[3 * i + 2]);
    r
  }

  /** The bytes of a triangle list: each face as three big-endian words. */
  function EncodeTriangles(faces: seq<Face>): (r: seq<Byte>)
    ensures |r| == 6 * |faces|
  {
    EncodeWords(Corners(faces))
  }

  /** Grouping the corners of a face list gives the list back. */
  lemma {:induction false} GroupCorners(faces: seq<Face>)
    ensures Group(Corners(faces), |faces|) == faces
    decreases |faces|
  {
    if |faces| > 0 {
      var n := |faces|;
      var init := faces[..n - 1];
      GroupCorners(init);
      assert Corners(faces)[..3 * n - 3] == Corners(init);
      assert faces == init + [faces[n - 1]];
    }
  }

  /** Reading back an encoded word buffer, wherever it sits, gives the
      words. */
  lemma ReadEncodedWords(pre: seq<Byte>, ws: seq<U16>, post: seq<Byte>)
    ensures ReadWords(pre + EncodeWords(ws) + post, |pre|, |ws|) == ws
  {
    var data := pre + EncodeWords(ws) + post;
    assert data[|pre|..|pre| + 2 * |ws|] == EncodeWords(ws);
    ReadWordsOf(data, |pre|, ws);
  }

  /** Words whose encoding sits at `o` read back as themselves. */
  lemma ReadWordsOf(data: seq<Byte>, o: nat, ws: seq<U16>)
    requires o + 2 * |ws| <= |data| && data[o..o + 2 * |ws|] == EncodeWords(ws)
    ensures ReadWords(data, o, |ws|) == ws
  {
    var r := ReadWords(data, o, |ws|);
    forall i | 0 <= i < |ws|
      ensures r[i] == ws[i]
    {
      EncodedWordAt(ws, i);
      SliceOfSlice(data, o, o + 2 * |ws|, 2 * i, 2 * i + 2);
      ReadU16BEAt(data, o + 2 * i, ws[i]);
    }
  }

  /** Word `i` of a buffer occupies bytes `2 * i` and `2 * i + 1` of its
      encoding. */
  lemma {:induction false} EncodedWordAt(ws: seq<U16>, i: nat)
    requires i < |ws|
    ensures EncodeWords(ws)[2 * i..2 * i + 2] == Be16(ws[i])
    decreases |ws|
  {
    var n := |ws|;
    var init := ws[..n - 1];
    assert EncodeWords(ws) == EncodeWords(init) + Be16(ws[n - 1]);
    if i < n - 1 {
      EncodedWordAt(init, i);
      assert EncodeWords(ws)[2 * i..2 * i + 2] == EncodeWords(init)[2 * i..2 * i + 2];
    }
  }

  /** Reading back an encoded triangle list, wherever it sits, gives the
      faces. */
  lemma ReadEncodedTriangles(pre: seq<Byte>, faces: seq<Face>, post: seq<Byte>)
    ensures ReadTriangles(pre + EncodeTriangles(faces) + post, |pre|, |faces|) == faces
  {
    ReadEncodedWords(pre, Corners(faces), post);
    GroupCorners(faces);
  }

  /** An encoded triangle list, wherever it sits in a buffer, reads back
      as itself. */
  lemma ReadTrianglesAt(data: seq<Byte>, o: nat, faces: seq<Face>)
    requires o + |EncodeTriangles(faces)| <= |data| && data[o..o + |EncodeTriangles(faces)|] == EncodeTriangles(faces)
    ensures ReadTriangles(data, o, |faces|) == faces
  {
    var tris := EncodeTriangles(faces);
    SplitAround(data, o, tris);
    ReadEncodedTriangles(data[..o], faces, data[o + |tris|..]);
  }

  // ---------------------------------------------------------------------
  // One extracted part
  // ---------------------------------------------------------------------

  /** Bytes per vertex entry: XYZ and UV floats, then padding. */
  const VertexStride: nat := 32

  /** Bytes of each entry that are read: five 4-byte floats. */
  const VertexRead: nat := 20

  /** The integer content of the dictionary `extract_model` returns: the
      vertex count, where the vertex entries and the faces begin, the faces,
      and the face count it reports. */
  datatype Part = Part(vertexCount: U16, vertexStart: nat, faceStart: nat, faces: seq<Face>, faceCount: nat)

  /** What one call of `extract_model` ends in: no marker at or after the
      start offset (`None, -1`); a read past the end of the data, where
      `struct.unpack` raises and the script stops; or a part and the offset
      to search on from. */
  datatype Extraction = NoMarker | ShortRead | Extracted(part: Part, next: nat)

  /** Every float of the `count` vertex entries starting at `start` lies
      inside `data`: the last entry's fifth float ends 20 bytes into it. */
  predicate VerticesInside(data: seq<Byte>, start: nat, count: nat)
  {
    count == 0 || start + VertexStride * (count - 1) + VertexRead <= |data|
  }

  /** The counts block both part headers share: the vertex count, two
      bytes no extractor reads, and the face or index count, big-endian. */
  function CountWords(vc: U16, fc: U16): (r: seq<Byte>)
    ensures |r| == 6
  {
    Be16(vc) + Zeros(2) + Be16(fc)
  }

  /** A counts block, wherever it sits, reads back as its two counts. */
  lemma CountWordsAt(data: seq<Byte>, o: nat, vc: U16, fc: U16)
    requires o + 6 <= |data| && data[o..o + 6] == CountWords(vc, fc)
    ensures ReadU16BE(data, o) == vc && ReadU16BE(data, o + 4) == fc
  {
    Pieces(Be16(vc), Zeros(2), Be16(fc));
    SliceOfSlice(data, o, o + 6, 0, 2);
    SliceOfSlice(data, o, o + 6, 4, 6);
    ReadU16BEAt(data, o, vc);
    ReadU16BEAt(data, o + 4, fc);
  }
}
