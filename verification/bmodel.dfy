/** `bmodel.py`: parts of a model file start at a four-byte `FF FF FF FF`
    marker. The vertex count sits 10 bytes after the marker, the index
    count 14 bytes after it, the vertex entries (32 bytes each) 60 bytes
    after it, and the index buffer follows the vertices. The index buffer
    is triangle strips separated by the terminator word 0xFFFF. */
module Bmodel {
  import opened Bytes
  import opened Mesh

  const Marker: seq<Byte> := [0xFF, 0xFF, 0xFF, 0xFF]
  const Terminator: U16 := 0xFFFF

  /** Offsets from the marker, as the skips after it add up. */
  const VertexCountAt: nat := 10
  const FaceCountAt: nat := 14
  const VerticesAt: nat := 60

  /** `find_buffer_marker`: the least position at or after `start` where
      the marker occurs, or -1. */
  function FindBufferMarker(data: seq<Byte>, start: nat): (r: int)
    ensures r == -1 || (start <= r && r + 4 <= |data| && data[r..r + 4] == Marker)
    ensures r >= 0 ==> forall i :: start <= i < r ==> !OccursAt(data, Marker, i)
    ensures r == -1 <==> forall i :: start <= i ==> !OccursAt(data, Marker, i)
  {
    Find(data, Marker, start)
  }

  // ---------------------------------------------------------------------
  // Triangle strips
  // ---------------------------------------------------------------------

  /** The triangles of one strip: triangle `i` is corners `i, i+1, i+2`,
      with the last two swapped on odd `i` so that all of them wind the
      same way. */
  function StripTriangles(s: seq<U16>): (r: seq<Face>)
    requires |s| >= 3
    ensures |r| == |s| - 2
    ensures forall i :: 0 <= i < |r| ==>
              r[i] == if i % 2 == 0 then Face(s[i], s[i + 1], s[i + 2]) else Face(s[i], s[i + 2], s[i + 1])
  {
    seq(|s| - 2, i requires 0 <= i < |s| - 2 =>
      if i % 2 == 0 then Face(s[i], s[i + 1], s[i + 2]) else Face(s[i], s[i + 2], s[i + 1]))
  }

  /** The faces a pending strip turns into when it ends: none when it has
      fewer than three indices. */
  function Flush(pending: seq<U16>): (r: seq<Face>)
    ensures |pending| < 3 ==> r == []
    ensures |pending| >= 3 ==> r == StripTriangles(pending)
  {
    if |pending| >= 3 then StripTriangles(pending) else []
  }

  /** The loop's state: faces so far and the strip being collected. */
  datatype StripState = StripState(faces: seq<Face>, pending: seq<U16>)

  /** One word of the index buffer. A terminator ends a strip of at least
      three indices; a shorter pending strip is kept, since the reset sits
      inside the branch that emits triangles. Any other word joins the
      pending strip. */
  function Step(st: StripState, w: U16): StripState
  {
    if w == Terminator then
      if |st.pending| >= 3 then StripState(st.faces + StripTriangles(st.pending), [])
      else st
    else StripState(st.faces, st.pending + [w])
  }

  /** The state after the words `ws`, fed first to last. */
  function Run(ws: seq<U16>): StripState
  {
    if |ws| == 0 then StripState([], [])
    else Step(Run(ws[..|ws| - 1]), ws[|ws| - 1])
  }

  /** The faces of an index buffer: the loop's faces, then the strip still
      pending when the buffer ends. */
  function StripFaces(ws: seq<U16>): seq<Face>
  {
    Run(ws).faces + Flush(Run(ws).pending)
  }

  /** `extract_triangle_strip_faces`: reads `faceCount` big-endian words
      at `offset` and returns the faces and the offset after them. The
      source's safety stop (more than `4 * faceCount` bytes read) is kept;
      the invariant `bytesRead <= 2 * faceCount` shows it never fires. */
  method ExtractTriangleStripFaces(data: seq<Byte>, offset: nat, faceCount: nat) returns (faces: seq<Face>, next: nat)
    requires faceCount == 0 || offset + 2 * faceCount <= |data|
    ensures faces == StripFaces(ReadWords(data, offset, faceCount))
    ensures next == offset + 2 * faceCount
  {
    ghost var ws := ReadWords(data, offset, faceCount);
    ghost var k := 0;
    faces := [];
    var strip: seq<U16> := [];
    var bytesRead := 0;
    next := offset;
    while bytesRead < faceCount * 2
      invariant k <= faceCount && bytesRead == 2 * k
      invariant next == offset + bytesRead
      invariant StripState(faces, strip) == Run(ws[..k])
    {
      var idx := ReadU16BE(data, next);
      RunExtend(ws, k);
      k := k + 1;
      if idx == Terminator {
        if |strip| >= 3 {
          var tri := ConvertStrip(strip);
          faces := faces + tri;
          strip := [];
        }
        next := next + 2;
        bytesRead := bytesRead + 2;
        continue;
      }
      strip := strip + [idx];
      next := next + 2;
      bytesRead := bytesRead + 2;
      if bytesRead > faceCount * 4 {
        assert false;
        break;
      }
    }
    assert ws[..k] == ws;
    if |strip| >= 3 {
      var tri := ConvertStrip(strip);
      faces := faces + tri;
    }
  }

  /** Feeding one more word is one more `Step`. */
  lemma RunExtend(ws: seq<U16>, k: nat)
    requires k < |ws|
    ensures Run(ws[..k + 1]) == Step(Run(ws[..k]), ws[k])
  {
    assert ws[..k + 1][..k] == ws[..k];
  }

  /** The source's conversion loop for one strip, emitting one triangle per
      position. */
  method ConvertStrip(strip: seq<U16>) returns (tri: seq<Face>)
    requires |strip| >= 3
    ensures tri == StripTriangles(strip)
  {
    var i := 0;
    tri := [];
    while i < |strip| - 2
      invariant 0 <= i <= |strip| - 2
      invariant tri == StripTriangles(strip)[..i]
    {
      if i % 2 == 0 {
        tri := tri + [Face(strip[i], strip[i + 1], strip[i + 2])];
      } else {
        tri := tri + [Face(strip[i], strip[i + 2], strip[i + 1])];
      }
      i := i + 1;
    }
  }

  // ---------------------------------------------------------------------
  // One part
  // ---------------------------------------------------------------------

  /** `extract_model` without the floats: the marker, then the part
      behind it. */
  function ExtractModel(data: seq<Byte>, start: nat): (r: Extraction)
    ensures r.NoMarker? <==> FindBufferMarker(data, start) == -1
    ensures FindBufferMarker(data, start) >= start ==> r == ExtractAt(data, FindBufferMarker(data, start))
  {
    var m := FindBufferMarker(data, start);
    if m == -1 then NoMarker else ExtractAt(data, m)
  }

  /** The part whose marker sits at `m`: the two counts, the vertex block,
      and the strip-encoded faces. The face count reported is the number
      of triangles decoded, not the header's index count. */
  function ExtractAt(data: seq<Byte>, m: nat): (r: Extraction)
    ensures !r.NoMarker?
    ensures r.ShortRead? <==>
              m + FaceCountAt + 2 > |data| ||
              !VerticesInside(data, m + VerticesAt, ReadU16BE(data, m + VertexCountAt)) ||
              (ReadU16BE(data, m + FaceCountAt) > 0 &&
               m + VerticesAt + VertexStride * ReadU16BE(data, m + VertexCountAt) + 2 * ReadU16BE(data, m + FaceCountAt) > |data|)
    ensures r.Extracted? ==>
              && r.part.vertexCount == ReadU16BE(data, m + VertexCountAt)
              && r.part.vertexStart == m + VerticesAt
              && r.part.faceStart == r.part.vertexStart + VertexStride * r.part.vertexCount
              && r.part.faces == StripFaces(ReadWords(data, r.part.faceStart, ReadU16BE(data, m + FaceCountAt)))
              && r.part.faceCount == |r.part.faces|
              && r.next == r.part.faceStart + 2 * ReadU16BE(data, m + FaceCountAt)
              && r.next > m
  {
    if m + FaceCountAt + 2 > |data| then ShortRead
    else
      var vc := ReadU16BE(data, m + VertexCountAt);
      var fc := ReadU16BE(data, m + FaceCountAt);
      var vs := m + VerticesAt;
      var fs := vs + VertexStride * vc;
      if !VerticesInside(data, vs, vc) || (fc > 0 && fs + 2 * fc > |data|) then ShortRead
      else
        var faces := StripFaces(ReadWords(data, fs, fc));
        Extracted(Part(vc, vs, fs, faces, |faces|), fs + 2 * fc)
  }

  // ---------------------------------------------------------------------
  // Properties of the strip decoder
  // ---------------------------------------------------------------------

  /** No face refers to the terminator: it never joins a strip. */
  lemma NoTerminatorInFaces(ws: seq<U16>)
    ensures forall f :: f in StripFaces(ws) ==> f.a != Terminator && f.b != Terminator && f.c != Terminator
  {
    RunAvoidsTerminator(ws);
    FlushAvoidsTerminator(Run(ws).pending);
  }

  /** No face and no pending index is the terminator. */
  predicate Clean(st: StripState)
  {
    && (forall f :: f in st.faces ==> f.a != Terminator && f.b != Terminator && f.c != Terminator)
    && (forall i :: 0 <= i < |st.pending| ==> st.pending[i] != Terminator)
  }

  lemma {:induction false} RunAvoidsTerminator(ws: seq<U16>)
    ensures Clean(Run(ws))
    decreases |ws|
  {
    if |ws| > 0 {
      RunAvoidsTerminator(ws[..|ws| - 1]);
      StepKeepsClean(Run(ws[..|ws| - 1]), ws[|ws| - 1]);
    }
  }

  lemma StepKeepsClean(st: StripState, w: U16)
    requires Clean(st)
    ensures Clean(Step(st, w))
  {
    if w == Terminator {
      FlushAvoidsTerminator(st.pending);
    }
  }

  /** The triangles of a strip use only the strip's indices. */
  lemma FlushAvoidsTerminator(p: seq<U16>)
    requires forall i :: 0 <= i < |p| ==> p[i] != Terminator
    ensures forall f :: f in Flush(p) ==> f.a != Terminator && f.b != Terminator && f.c != Terminator
  {
    if |p| >= 3 {
      forall f | f in StripTriangles(p)
        ensures f.a != Terminator && f.b != Terminator && f.c != Terminator
      {
        var i :| 0 <= i < |p| - 2 && StripTriangles(p)[i] == f;
      }
    }
  }

  /** At most one face per word: a strip of `n` indices yields `n - 2`
      faces and every index and terminator is one word. */
  lemma FaceCountBound(ws: seq<U16>)
    ensures |StripFaces(ws)| <= |ws|
  {
    RunCount(ws);
  }

  lemma {:induction false} RunCount(ws: seq<U16>)
    ensures |Run(ws).faces| + |Run(ws).pending| <= |ws|
    decreases |ws|
  {
    if |ws| > 0 {
      RunCount(ws[..|ws| - 1]);
    }
  }

  /** Consecutive triangles of a strip share an edge, walked in opposite
      directions: the strip's faces all wind the same way. */
  lemma StripWindingConsistent(s: seq<U16>, i: nat)
    requires |s| >= 3 && i + 1 < |s| - 2
    ensures var r := StripTriangles(s);
            exists e :: e in Edges(r[i]) && (e.1, e.0) in Edges(r[i + 1])
  {
    var r := StripTriangles(s);
    if i % 2 == 0 {
      assert (s[i + 1], s[i + 2]) in Edges(r[i]);
    } else {
      assert (s[i + 2], s[i + 1]) in Edges(r[i]);
    }
  }

  /** A terminator after fewer than three pending indices changes nothing:
      the reset sits inside the branch that emits triangles, so the short
      strip stays pending and opens the next one. */
  lemma ShortStripCarriesOver(ws: seq<U16>)
    requires |Run(ws).pending| < 3
    ensures Run(ws + [Terminator]) == Run(ws)
  {
    RunSnoc(ws, Terminator);
  }

  /** Appending a word to the buffer is one more `Step`. */
  lemma RunSnoc(ws: seq<U16>, w: U16)
    ensures Run(ws + [w]) == Step(Run(ws), w)
  {
    assert (ws + [w])[..|ws|] == ws;
  }

  /** Words other than the terminator join the pending strip one by one
      and emit nothing. */
  lemma {:induction false} PendingGrows(ws: seq<U16>, s: seq<U16>)
    requires forall i :: 0 <= i < |s| ==> s[i] != Terminator
    ensures Run(ws + s) == StripState(Run(ws).faces, Run(ws).pending + s)
    decreases |s|
  {
    if |s| == 0 {
      assert ws + s == ws;
    } else {
      var init, last := s[..|s| - 1], s[|s| - 1];
      AppendLast(ws, s);
      AppendLast(Run(ws).pending, s);
      PendingGrows(ws, init);
      RunSnoc(ws + init, last);
    }
  }

  /** `a + s` with `s`'s last element split off. */
  lemma AppendLast(a: seq<U16>, s: seq<U16>)
    requires |s| > 0
    ensures a + s == (a + s[..|s| - 1]) + [s[|s| - 1]]
  {
    assert s == s[..|s| - 1] + [s[|s| - 1]];
  }

  /** A terminator after at least three pending indices emits the strip's
      triangles and starts an empty strip. */
  lemma StripClosed(ws: seq<U16>, s: seq<U16>)
    requires forall i :: 0 <= i < |s| ==> s[i] != Terminator
    requires |Run(ws).pending| + |s| >= 3
    ensures Run(ws + s + [Terminator]) == StripState(Run(ws).faces + StripTriangles(Run(ws).pending + s), [])
  {
    PendingGrows(ws, s);
    assert (ws + s + [Terminator])[..|ws + s|] == ws + s;
  }

  /** A strip as the files hold it: at least three indices, none of them
      the terminator. */
  predicate ProperStrip(s: seq<U16>)
  {
    |s| >= 3 && forall i :: 0 <= i < |s| ==> s[i] != Terminator
  }

  /** The index buffer of a list of strips, each closed by a terminator. */
  function Joined(strips: seq<seq<U16>>): seq<U16>
  {
    if |strips| == 0 then [] else Joined(strips[..|strips| - 1]) + strips[|strips| - 1] + [Terminator]
  }

  /** The triangles of a list of strips, strip after strip. */
  function AllTriangles(strips: seq<seq<U16>>): seq<Face>
    requires forall j :: 0 <= j < |strips| ==> ProperStrip(strips[j])
  {
    if |strips| == 0 then []
    else
      var last := strips[|strips| - 1];
      assert ProperStrip(last);
      AllTriangles(strips[..|strips| - 1]) + StripTriangles(last)
  }

  /** An index buffer made of proper strips, each closed by a terminator,
      runs to the strips' triangles in order, with nothing left pending. */
  lemma {:induction false} RunOfStrips(strips: seq<seq<U16>>)
    requires forall j :: 0 <= j < |strips| ==> ProperStrip(strips[j])
    ensures Run(Joined(strips)) == StripState(AllTriangles(strips), [])
    decreases |strips|
  {
    if |strips| > 0 {
      var n := |strips|;
      var init, last := strips[..n - 1], strips[n - 1];
      var before, faces := Joined(init), AllTriangles(init);
      assert Run(before) == StripState(faces, []) by {
        assert forall j :: 0 <= j < |init| ==> init[j] == strips[j];
        RunOfStrips(init);
      }
      assert Run(before + last + [Terminator]) == StripState(faces + StripTriangles(last), []) by {
        assert ProperStrip(last);
        assert Run(before).pending + last == last;
        StripClosed(before, last);
      }
      assert Joined(strips) == before + last + [Terminator];
      assert AllTriangles(strips) == faces + StripTriangles(last);
    }
  }

  /** The faces of such a buffer are exactly the strips' triangles: the
      strip decoder inverts `Joined` on proper strips. */
  lemma StripFacesOfStrips(strips: seq<seq<U16>>)
    requires forall j :: 0 <= j < |strips| ==> ProperStrip(strips[j])
    ensures StripFaces(Joined(strips)) == AllTriangles(strips)
  {
    RunOfStrips(strips);
    assert Flush([]) == [];
  }

  /** The carry-over on a concrete buffer: `[1, 2, T, 3, T]` yields the
      face `(1, 2, 3)`. */
  lemma ShortStripExample()
    ensures StripFaces([1, 2, Terminator, 3, Terminator]) == [Face(1, 2, 3)]
  {
    var ws: seq<U16> := [1, 2, Terminator, 3, Terminator];
    assert ws[..4] == [1, 2, Terminator, 3];
    assert ws[..4][..3] == [1, 2, Terminator];
    assert ws[..4][..3][..2] == [1, 2];
    assert ws[..4][..3][..2][..1] == [1];
    assert Run([1]) == StripState([], [1]);
    assert Run([1, 2]) == StripState([], [1, 2]);
    assert Run([1, 2, Terminator]) == StripState([], [1, 2]);
    assert Run([1, 2, Terminator, 3]) == StripState([], [1, 2, 3]);
    assert StripTriangles([1, 2, 3]) == [Face(1, 2, 3)];
  }

  /** The next search offset lies past the marker, so the part loop in the
      script always moves forward. */
  lemma ExtractionAdvances(data: seq<Byte>, start: nat)
    requires ExtractModel(data, start).Extracted?
    ensures ExtractModel(data, start).next > start
  {
  }

  // ---------------------------------------------------------------------
  // A part builder, the extractor's partner
  // ---------------------------------------------------------------------

  /** The 60 bytes from the marker to the vertex entries: the marker, six
      bytes the extractor skips, the vertex count, two more skipped bytes,
      the index count, and padding. */
  function PartHeader(vc: U16, ic: U16): (r: seq<Byte>)
    ensures |r| == VerticesAt
  {
    Marker + Zeros(VertexCountAt - |Marker|) + CountWords(vc, ic) + Zeros(VerticesAt - VertexCountAt - 6)
  }

  /** A part holding `vc` zeroed vertex entries and the index buffer `ws`. */
  function BuildPart(vc: U16, ws: seq<U16>): (r: seq<Byte>)
    requires |ws| < 0x1_0000
    ensures |r| == VerticesAt + VertexStride * vc + 2 * |ws|
  {
    PartHeader(vc, |ws|) + Zeros(VertexStride * vc) + EncodeWords(ws)
  }

  /** Where a built part's counts and index buffer sit inside it. */
  lemma BuildPartPieces(vc: U16, ws: seq<U16>)
    requires |ws| < 0x1_0000
    ensures var b := BuildPart(vc, ws);
            && b[VertexCountAt..VertexCountAt + 6] == CountWords(vc, |ws|)
            && b[VerticesAt + VertexStride * vc..|b|] == EncodeWords(ws)
  {
    var header := PartHeader(vc, |ws|);
    Pieces(header, Zeros(VertexStride * vc), EncodeWords(ws));
    Pieces(Marker + Zeros(VertexCountAt - |Marker|), CountWords(vc, |ws|), Zeros(VerticesAt - VertexCountAt - 6));
    SliceOfSlice(BuildPart(vc, ws), 0, VerticesAt, VertexCountAt, VertexCountAt + 6);
  }

  /** Extracting at `m`, where the bytes of a built part sit, gives back
      its vertex count and the triangles of its strips, whatever surrounds
      it, and the search continues right after the index buffer. */
  lemma ExtractBuiltPart(data: seq<Byte>, m: nat, vc: U16, ws: seq<U16>)
    requires |ws| < 0x1_0000
    requires m + |BuildPart(vc, ws)| <= |data| && data[m..m + |BuildPart(vc, ws)|] == BuildPart(vc, ws)
    ensures var fs := m + VerticesAt + VertexStride * vc;
            var faces := StripFaces(ws);
            ExtractAt(data, m) == Extracted(Part(vc, m + VerticesAt, fs, faces, |faces|), fs + 2 * |ws|)
  {
    BuiltPartCounts(data, m, vc, ws);
    BuiltPartWords(data, m, vc, ws);
    ExtractAtFits(data, m, vc, ws);
  }

  /** The counts of a built part read back at their offsets. */
  lemma BuiltPartCounts(data: seq<Byte>, m: nat, vc: U16, ws: seq<U16>)
    requires |ws| < 0x1_0000
    requires m + |BuildPart(vc, ws)| <= |data| && data[m..m + |BuildPart(vc, ws)|] == BuildPart(vc, ws)
    ensures ReadU16BE(data, m + VertexCountAt) == vc && ReadU16BE(data, m + FaceCountAt) == |ws|
  {
    var n := |BuildPart(vc, ws)|;
    BuildPartPieces(vc, ws);
    SliceOfSlice(data, m, m + n, VertexCountAt, VertexCountAt + 6);
    CountWordsAt(data, m + VertexCountAt, vc, |ws|);
  }

  /** The index buffer of a built part reads back behind its vertex
      entries. */
  lemma BuiltPartWords(data: seq<Byte>, m: nat, vc: U16, ws: seq<U16>)
    requires |ws| < 0x1_0000
    requires m + |BuildPart(vc, ws)| <= |data| && data[m..m + |BuildPart(vc, ws)|] == BuildPart(vc, ws)
    ensures m + VerticesAt + VertexStride * vc + 2 * |ws| <= |data|
    ensures ReadWords(data, m + VerticesAt + VertexStride * vc, |ws|) == ws
  {
    var n := |BuildPart(vc, ws)|;
    BuildPartPieces(vc, ws);
    SliceOfSlice(data, m, m + n, VerticesAt + VertexStride * vc, n);
    ReadWordsOf(data, m + VerticesAt + VertexStride * vc, ws);
  }

  /** A part whose counts read `vc` and `|ws|`, whose index buffer reads
      `ws` and ends inside the data, is extracted in full. */
  lemma ExtractAtFits(data: seq<Byte>, m: nat, vc: U16, ws: seq<U16>)
    requires m + VerticesAt + VertexStride * vc + 2 * |ws| <= |data|
    requires ReadU16BE(data, m + VertexCountAt) == vc && ReadU16BE(data, m + FaceCountAt) == |ws|
    requires ReadWords(data, m + VerticesAt + VertexStride * vc, |ws|) == ws
    ensures var fs := m + VerticesAt + VertexStride * vc;
            var faces := StripFaces(ws);
            ExtractAt(data, m) == Extracted(Part(vc, m + VerticesAt, fs, faces, |faces|), fs + 2 * |ws|)
  {
  }
}
