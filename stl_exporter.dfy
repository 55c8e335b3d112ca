/**
 * STLExporter::export_ascii (stl_exporter.cpp): the output path next to the
 * executable, and the ASCII STL text, one facet per face whose three indices
 * all name a vertex.
 */
module StlExport {
  import opened Wrappers
  import opened Vector3
  import opened MeshTypes

  // ---------------------------------------------------------------------------
  // Output path

  /** The separators find_last_of looks for. */
  predicate IsSeparator(ch: char)
  {
    ch == '\\' || ch == '/'
  }

  /** find_last_of("\\/"): the position of the last separator, None for npos. */
  function LastSeparator(s: string): (r: Option<nat>)
    ensures r.Some? ==> r.value < |s| && IsSeparator(s[r.value])
    ensures r.Some? ==> forall i :: r.value < i < |s| ==> !IsSeparator(s[i])
    ensures r.None? ==> forall i :: 0 <= i < |s| ==> !IsSeparator(s[i])
  {
    if |s| == 0 then None
    else if IsSeparator(s[|s| - 1]) then Some(|s| - 1)
    else LastSeparator(s[..|s| - 1])
  }

  /**
   * dir: the executable path up to and including its last separator, or the
   * empty string when it has none. It is a prefix of the path, it is empty
   * or ends in a separator, and the rest of the path holds no separator.
   */
  function Dir(exePath: string): (d: string)
    ensures d <= exePath
    ensures d == [] || IsSeparator(d[|d| - 1])
    ensures forall i :: |d| <= i < |exePath| ==> !IsSeparator(exePath[i])
  {
    var pos := LastSeparator(exePath);
    if pos.Some? then exePath[..pos.value + 1] else []
  }

  /** Those three properties pin dir down: no other prefix has them all. */
  lemma DirUnique(exePath: string, p: string)
    requires p <= exePath
    requires p == [] || IsSeparator(p[|p| - 1])
    requires forall i :: |p| <= i < |exePath| ==> !IsSeparator(exePath[i])
    ensures p == Dir(exePath)
  {
    var d := Dir(exePath);
    assert |d| > 0 ==> IsSeparator(exePath[|d| - 1]);
    assert |p| > 0 ==> IsSeparator(exePath[|p| - 1]);
  }

  /** outPath: the file name appended to dir. */
  function OutPath(exePath: string, filename: string): (r: string)
    ensures Dir(exePath) <= r && r[|Dir(exePath)|..] == filename
  {
    Dir(exePath) + filename
  }

  // ---------------------------------------------------------------------------
  // Face filter

  const TwoTo31: int := 0x8000_0000
  const TwoTo32: int := 0x1_0000_0000

  /** A face index as a C++ int holds it. */
  predicate Int32(v: int)
  {
    -TwoTo31 <= v < TwoTo31
  }

  predicate FaceInt32(f: Face)
  {
    Int32(f.v1) && Int32(f.v2) && Int32(f.v3)
  }

  /** The cast (uint32_t)v of an int: v modulo 2^32. */
  function Unsigned32(v: int): (u: nat)
    ensures u < TwoTo32
    ensures 0 <= v < TwoTo32 ==> u == v
    ensures -TwoTo32 <= v < 0 ==> u == v + TwoTo32
  {
    v % TwoTo32
  }

  /** The loop's test: a face is written unless an index cast to unsigned is at least the vertex count. */
  predicate Written(f: Face, vertexCount: nat)
  {
    !(Unsigned32(f.v1) >= vertexCount || Unsigned32(f.v2) >= vertexCount || Unsigned32(f.v3) >= vertexCount)
  }

  /**
   * For int indices and fewer than 2^31 + 1 vertices the test keeps exactly
   * the faces whose indices all lie in [0, vertexCount): a negative index
   * casts to 2^31 or more and is skipped too.
   */
  lemma WrittenIff(f: Face, vertexCount: nat)
    requires FaceInt32(f) && vertexCount <= TwoTo31
    ensures Written(f, vertexCount) <==> FaceWithin(f, 0, vertexCount)
  {
  }

  /** The faces the loop writes, in face order. */
  function Emitted(faces: seq<Face>, vertexCount: nat): (r: seq<Face>)
    ensures |r| <= |faces|
    ensures forall k :: 0 <= k < |r| ==> Written(r[k], vertexCount)
  {
    if |faces| == 0 then []
    else
      var front := Emitted(faces[..|faces| - 1], vertexCount);
      var last := faces[|faces| - 1];
      if Written(last, vertexCount) then front + [last] else front
  }

  /** Filtering keeps the face order: the faces of a + b give a's written faces, then b's. */
  lemma {:induction false} EmittedAppend(a: seq<Face>, b: seq<Face>, vertexCount: nat)
    ensures Emitted(a + b, vertexCount) == Emitted(a, vertexCount) + Emitted(b, vertexCount)
    decreases |b|
  {
    if |b| > 0 {
      var n := |b| - 1;
      assert (a + b)[..|a + b| - 1] == a + b[..n];
      EmittedAppend(a, b[..n], vertexCount);
    } else {
      assert a + b == a;
    }
  }

  /** A face is written exactly when it passes the test. */
  lemma EmittedSingle(f: Face, vertexCount: nat)
    ensures Emitted([f], vertexCount) == if Written(f, vertexCount) then [f] else []
  {
    assert [f][..0] == [];
  }

  /** Every face that passes the test is written (and, by Emitted's contract, only those). */
  lemma {:induction false} EmittedKeeps(faces: seq<Face>, vertexCount: nat, k: nat)
    requires k < |faces| && Written(faces[k], vertexCount)
    ensures faces[k] in Emitted(faces, vertexCount)
  {
    var n := |faces| - 1;
    if k < n {
      var front := faces[..n];
      assert front[k] == faces[k];
      EmittedKeeps(front, vertexCount, k);
    }
  }

  /** A mesh whose faces all name vertices (and has at most 2^32 vertices) loses no face. */
  lemma {:induction false} EmitsAll(faces: seq<Face>, vertexCount: nat)
    requires AllWithin(faces, 0, vertexCount) && vertexCount <= TwoTo32
    ensures Emitted(faces, vertexCount) == faces
  {
    if |faces| > 0 {
      var n := |faces| - 1;
      assert AllWithin(faces[..n], 0, vertexCount) by {
        forall j | 0 <= j < n ensures FaceWithin(faces[..n][j], 0, vertexCount) {
          assert faces[..n][j] == faces[j];
        }
      }
      EmitsAll(faces[..n], vertexCount);
      assert FaceWithin(faces[n], 0, vertexCount);
      assert faces[..n] + [faces[n]] == faces;
    }
  }

  // ---------------------------------------------------------------------------
  // The STL text

  /**
   * One output line. The fixed lines carry no data; a normal or vertex line's
   * number formatting is the stream's and is not modelled.
   */
  datatype StlLine =
    | SolidHeader
    | FacetNormal(n: Vec3)
    | OuterLoop
    | Vertex(p: Vec3)
    | EndLoop
    | EndFacet
    | SolidFooter

  /** The text of the fixed lines. */
  function FixedText(line: StlLine): (t: Option<string>)
    ensures t.None? <==> line.FacetNormal? || line.Vertex?
  {
    match line
    case SolidHeader => Some("solid cellholder")
    case OuterLoop => Some("    outer loop")
    case EndLoop => Some("    endloop")
    case EndFacet => Some("  endfacet")
    case SolidFooter => Some("endsolid cellholder")
    case _ => None
  }

  /** The facet of a face: the normal of (b - a) x (c - a), then a, b and c in face order. */
  function Facet(V: seq<Vec3>, f: Face, sqrt: real -> real): seq<StlLine>
    requires FaceWithin(f, 0, |V|)
  {
    var a, b, c := V[f.v1], V[f.v2], V[f.v3];
    [FacetNormal(Normalize(Cross(Sub(b, a), Sub(c, a)), sqrt)), OuterLoop, Vertex(a), Vertex(b), Vertex(c), EndLoop, EndFacet]
  }

  function Facets(V: seq<Vec3>, fs: seq<Face>, sqrt: real -> real): seq<StlLine>
    requires AllWithin(fs, 0, |V|)
  {
    if |fs| == 0 then []
    else
      var front := fs[..|fs| - 1];
      assert AllWithin(front, 0, |V|) by {
        forall j | 0 <= j < |front| ensures FaceWithin(front[j], 0, |V|) {
          assert front[j] == fs[j];
        }
      }
      Facets(V, front, sqrt) + Facet(V, fs[|fs| - 1], sqrt)
  }

  /** Int indices, and few enough vertices that a negative index never passes the test. */
  predicate Exportable(m: Mesh)
  {
    |m.vertices| <= TwoTo31 && AllInt32(m.faces)
  }

  predicate AllInt32(fs: seq<Face>)
  {
    forall j :: 0 <= j < |fs| ==> FaceInt32(fs[j])
  }

  /** With int indices and at most 2^31 vertices, the written faces all name vertices. */
  lemma {:induction false} EmittedWithin(fs: seq<Face>, vertexCount: nat)
    requires AllInt32(fs) && vertexCount <= TwoTo31
    ensures AllWithin(Emitted(fs, vertexCount), 0, vertexCount)
  {
    if |fs| > 0 {
      var front := fs[..|fs| - 1];
      assert AllInt32(front) by {
        forall j | 0 <= j < |front| ensures FaceInt32(front[j]) {
          assert front[j] == fs[j];
        }
      }
      EmittedWithin(front, vertexCount);
      WrittenIff(fs[|fs| - 1], vertexCount);
    }
  }

  /** The whole file: the header, a facet per written face in face order, and the footer. */
  function StlText(m: Mesh, sqrt: real -> real): seq<StlLine>
    requires Exportable(m)
  {
    EmittedWithin(m.faces, |m.vertices|);
    [SolidHeader] + Facets(m.vertices, Emitted(m.faces, |m.vertices|), sqrt) + [SolidFooter]
  }

  /** Facet k of fs is the seven lines [7k, 7k + 7). */
  lemma {:induction false} FacetsAt(V: seq<Vec3>, fs: seq<Face>, sqrt: real -> real, k: nat)
    requires AllWithin(fs, 0, |V|) && k < |fs|
    ensures |Facets(V, fs, sqrt)| == 7 * |fs|
    ensures Facets(V, fs, sqrt)[7 * k..7 * k + 7] == Facet(V, fs[k], sqrt)
  {
    var n := |fs| - 1;
    var front := fs[..n];
    assert AllWithin(front, 0, |V|) by {
      forall j | 0 <= j < |front| ensures FaceWithin(front[j], 0, |V|) {
        assert front[j] == fs[j];
      }
    }
    FacetsSize(V, front, sqrt);
    var F := Facets(V, front, sqrt);
    assert Facets(V, fs, sqrt) == F + Facet(V, fs[n], sqrt);
    if k < n {
      FacetsAt(V, front, sqrt, k);
      assert front[k] == fs[k];
      assert (F + Facet(V, fs[n], sqrt))[7 * k..7 * k + 7] == F[7 * k..7 * k + 7];
    }
  }

  lemma {:induction false} FacetsSize(V: seq<Vec3>, fs: seq<Face>, sqrt: real -> real)
    requires AllWithin(fs, 0, |V|)
    ensures |Facets(V, fs, sqrt)| == 7 * |fs|
  {
    if |fs| > 0 {
      var front := fs[..|fs| - 1];
      assert AllWithin(front, 0, |V|) by {
        forall j | 0 <= j < |front| ensures FaceWithin(front[j], 0, |V|) {
          assert front[j] == fs[j];
        }
      }
      FacetsSize(V, front, sqrt);
    }
  }

  /**
   * The file opens with "solid cellholder", closes with "endsolid
   * cellholder", and between them holds exactly one seven-line facet per
   * written face, in face order.
   */
  lemma StlTextShape(m: Mesh, sqrt: real -> real)
    requires Exportable(m)
    ensures var t := StlText(m, sqrt);
      var E := Emitted(m.faces, |m.vertices|);
      AllWithin(E, 0, |m.vertices|) &&
      |t| == 2 + 7 * |E| &&
      FixedText(t[0]) == Some("solid cellholder") && FixedText(t[|t| - 1]) == Some("endsolid cellholder") &&
      forall k :: 0 <= k < |E| ==> t[1 + 7 * k..8 + 7 * k] == Facet(m.vertices, E[k], sqrt)
  {
    EmittedWithin(m.faces, |m.vertices|);
    var E := Emitted(m.faces, |m.vertices|);
    var F := Facets(m.vertices, E, sqrt);
    FacetsSize(m.vertices, E, sqrt);
    var t := StlText(m, sqrt);
    assert t == [SolidHeader] + F + [SolidFooter];
    forall k | 0 <= k < |E| ensures t[1 + 7 * k..8 + 7 * k] == Facet(m.vertices, E[k], sqrt) {
      FacetsAt(m.vertices, E, sqrt, k);
      FramedSlice(SolidHeader, F, SolidFooter, 7 * k, 7 * k + 7);
    }
  }

  /** A slice of the body of a framed sequence, one place further on. */
  lemma FramedSlice<T>(head: T, body: seq<T>, foot: T, lo: nat, hi: nat)
    requires lo <= hi <= |body|
    ensures ([head] + body + [foot])[lo + 1..hi + 1] == body[lo..hi]
  {
    var t := [head] + body + [foot];
    var u := t[lo + 1..hi + 1];
    assert forall i :: 0 <= i < |u| ==> u[i] == body[lo + i];
  }

  /** One more face: it is appended to the written faces when it passes the test. */
  lemma EmittedStep(m: Mesh, j: nat)
    requires Exportable(m) && j < |m.faces|
    ensures Emitted(m.faces[..j + 1], |m.vertices|) ==
      Emitted(m.faces[..j], |m.vertices|) + (if Written(m.faces[j], |m.vertices|) then [m.faces[j]] else [])
    ensures AllWithin(Emitted(m.faces[..j + 1], |m.vertices|), 0, |m.vertices|)
  {
    var f := m.faces[j];
    assert m.faces[..j + 1] == m.faces[..j] + [f];
    EmittedAppend(m.faces[..j], [f], |m.vertices|);
    EmittedSingle(f, |m.vertices|);
    var prefix := m.faces[..j + 1];
    assert AllInt32(prefix) by {
      forall i | 0 <= i < |prefix| ensures FaceInt32(prefix[i]) {
        assert prefix[i] == m.faces[i];
      }
    }
    EmittedWithin(m.faces[..j + 1], |m.vertices|);
  }

  lemma FacetsSnoc(V: seq<Vec3>, fs: seq<Face>, f: Face, sqrt: real -> real)
    requires AllWithin(fs, 0, |V|) && FaceWithin(f, 0, |V|)
    ensures AllWithin(fs + [f], 0, |V|)
    ensures Facets(V, fs + [f], sqrt) == Facets(V, fs, sqrt) + Facet(V, f, sqrt)
  {
    assert (fs + [f])[..|fs|] == fs;
  }

  /** After the first j faces, out holds the facets of the written ones. */
  predicate WroteUpTo(m: Mesh, j: nat, out: seq<StlLine>, sqrt: real -> real)
    requires j <= |m.faces|
  {
    AllWithin(Emitted(m.faces[..j], |m.vertices|), 0, |m.vertices|) &&
    out == Facets(m.vertices, Emitted(m.faces[..j], |m.vertices|), sqrt)
  }

  /** One more face that passes the test: its facet follows the earlier ones. */
  lemma FacetsStep(m: Mesh, j: nat, out: seq<StlLine>, sqrt: real -> real)
    requires Exportable(m) && j < |m.faces| && WroteUpTo(m, j, out, sqrt)
    requires Written(m.faces[j], |m.vertices|)
    ensures FaceWithin(m.faces[j], 0, |m.vertices|)
    ensures WroteUpTo(m, j + 1, out + Facet(m.vertices, m.faces[j], sqrt), sqrt)
  {
    var f := m.faces[j];
    var V := |m.vertices|;
    EmittedStep(m, j);
    WrittenIff(f, V);
    var E0 := Emitted(m.faces[..j], V);
    FacetsSnoc(m.vertices, E0, f, sqrt);
    assert Emitted(m.faces[..j + 1], V) == E0 + [f];
  }

  /** One more face that fails the test: nothing is written. */
  lemma SkipStep(m: Mesh, j: nat, out: seq<StlLine>, sqrt: real -> real)
    requires Exportable(m) && j < |m.faces| && WroteUpTo(m, j, out, sqrt)
    requires !Written(m.faces[j], |m.vertices|)
    ensures WroteUpTo(m, j + 1, out, sqrt)
  {
    var V := |m.vertices|;
    EmittedStep(m, j);
    var E0 := Emitted(m.faces[..j], V);
    assert Emitted(m.faces[..j + 1], V) == E0 + [];
    assert E0 + [] == E0;
  }

  /** The body of the face loop for a face that passes the test. */
  method WriteFacet(V: seq<Vec3>, f: Face, sqrt: real -> real) returns (facet: seq<StlLine>)
    requires FaceWithin(f, 0, |V|)
    ensures facet == Facet(V, f, sqrt)
  {
    var a := V[f.v1];
    var b := V[f.v2];
    var c := V[f.v3];
    var n := Normalize(Cross(Sub(b, a), Sub(c, a)), sqrt);
    facet := [FacetNormal(n), OuterLoop, Vertex(a), Vertex(b), Vertex(c), EndLoop, EndFacet];
  }

  /**
   * export_ascii with the executable's path as a parameter: the output path
   * and the lines written to it. Number formatting and the file itself are
   * not modelled.
   */
  method ExportAscii(m: Mesh, filename: string, exePath: string, sqrt: real -> real)
    returns (outPath: string, out: seq<StlLine>)
    requires Exportable(m)
    ensures outPath == OutPath(exePath, filename)
    ensures out == StlText(m, sqrt)
  {
    outPath := OutPath(exePath, filename);
    out := [SolidHeader];
    var facets := WriteFacets(m, sqrt);
    out := out + facets + [SolidFooter];
  }

  /** One pass of the face loop: face j is written when all its indices pass the guard, skipped otherwise. */
  method WriteFaceAt(m: Mesh, j: nat, out: seq<StlLine>, sqrt: real -> real) returns (out': seq<StlLine>)
    requires Exportable(m) && j < |m.faces| && WroteUpTo(m, j, out, sqrt)
    ensures WroteUpTo(m, j + 1, out', sqrt)
  {
    var V := |m.vertices|;
    var f := m.faces[j];
    if Unsigned32(f.v1) >= V || Unsigned32(f.v2) >= V || Unsigned32(f.v3) >= V {
      SkipStep(m, j, out, sqrt);
      out' := out;
    } else {
      FacetsStep(m, j, out, sqrt);
      var facet := WriteFacet(m.vertices, f, sqrt);
      out' := out + facet;
    }
  }

  /** The face loop: a facet for each face that passes the test, skipping the others. */
  method WriteFacets(m: Mesh, sqrt: real -> real) returns (out: seq<StlLine>)
    requires Exportable(m)
    ensures AllWithin(Emitted(m.faces, |m.vertices|), 0, |m.vertices|)
    ensures out == Facets(m.vertices, Emitted(m.faces, |m.vertices|), sqrt)
  {
    out := [];
    assert m.faces[..0] == [];
    for j := 0 to |m.faces|
      invariant WroteUpTo(m, j, out, sqrt)
    {
      out := WriteFaceAt(m, j, out, sqrt);
    }
    assert m.faces[..|m.faces|] == m.faces;
  }
}
