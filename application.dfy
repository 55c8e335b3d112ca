/**
 * The pipeline of Application::run (application.cpp): the ring set at the
 * dimensions fitRect requires, the 2D vertex list lifted into a bottom and a
 * top copy, cap faces from a triangulation, and side walls stitched around
 * every ring.
 */
module Extrusion {
  import opened Vector2
  import opened Vector3
  import opened MeshTypes
  import CellLayout

  // ---------------------------------------------------------------------------
  // Vertex list

  /** The rings' points in ring order: the vertex list the triangulation indexes. */
  function Flatten(rings: seq<seq<Vec2>>): seq<Vec2>
  {
    if |rings| == 0 then [] else Flatten(rings[..|rings| - 1]) + rings[|rings| - 1]
  }

  /** Rings of equal size k are laid out back to back: ring h is the slice [h*k, h*k + k). */
  lemma {:induction false} FlattenSlice(rings: seq<seq<Vec2>>, k: nat, h: nat)
    requires forall j :: 0 <= j < |rings| ==> |rings[j]| == k
    requires h < |rings|
    ensures |Flatten(rings)| == |rings| * k
    ensures h * k + k <= |Flatten(rings)| && Flatten(rings)[h * k..h * k + k] == rings[h]
  {
    var n := |rings|;
    FlattenSize(rings, k);
    FlattenSize(rings[..n - 1], k);
    var front := Flatten(rings[..n - 1]);
    assert Flatten(rings) == front + rings[n - 1];
    if h < n - 1 {
      FlattenSlice(rings[..n - 1], k, h);
      assert h * k + k <= (n - 1) * k by {
        CellLayout.MulAtLeast(n - 1 - h, k);
        assert (n - 1) * k - h * k == (n - 1 - h) * k;
      }
      assert (front + rings[n - 1])[h * k..h * k + k] == front[h * k..h * k + k];
    } else {
      assert (n - 1) * k == h * k;
    }
  }

  lemma {:induction false} FlattenSize(rings: seq<seq<Vec2>>, k: nat)
    requires forall j :: 0 <= j < |rings| ==> |rings[j]| == k
    ensures |Flatten(rings)| == |rings| * k
  {
    if |rings| > 0 {
      FlattenSize(rings[..|rings| - 1], k);
      assert |rings| * k == (|rings| - 1) * k + k;
    }
  }

  /** Hole h occupies the slice [4 + h*segs, 4 + (h+1)*segs) of the vertex list V. */
  predicate HoleSlices(V: seq<Vec2>, holes: seq<seq<Vec2>>, segs: nat)
  {
    forall h :: 0 <= h < |holes| ==>
      4 + h * segs + segs <= |V| && V[4 + h * segs..4 + h * segs + segs] == holes[h]
  }

  /**
   * The vertex list of a ring set whose first ring has 4 points and every
   * other ring segs points: the four corners first, then hole h (ring 1 + h)
   * as the slice [4 + h*segs, 4 + h*segs + segs).
   */
  lemma RingVertexOffsets(rings: seq<seq<Vec2>>, segs: nat)
    requires |rings| > 0 && |rings[0]| == 4
    requires forall j :: 0 < j < |rings| ==> |rings[j]| == segs
    ensures |Flatten(rings)| == 4 + (|rings| - 1) * segs
    ensures Flatten(rings)[..4] == rings[0]
    ensures HoleSlices(Flatten(rings), rings[1..], segs)
  {
    var holes := rings[1..];
    assert forall j :: 0 <= j < |holes| ==> |holes[j]| == segs by {
      forall j | 0 <= j < |holes| ensures |holes[j]| == segs {
        assert holes[j] == rings[j + 1];
      }
    }
    FlattenSize(holes, segs);
    FlattenCons(rings);
    assert Flatten(rings) == rings[0] + Flatten(holes);
    HolesAfterCorners(rings[0], holes, segs);
  }

  lemma HolesAfterCorners(corners: seq<Vec2>, holes: seq<seq<Vec2>>, segs: nat)
    requires |corners| == 4
    requires forall j :: 0 <= j < |holes| ==> |holes[j]| == segs
    ensures HoleSlices(corners + Flatten(holes), holes, segs)
  {
    var V := corners + Flatten(holes);
    forall h | 0 <= h < |holes|
      ensures 4 + h * segs + segs <= |V| && V[4 + h * segs..4 + h * segs + segs] == holes[h]
    {
      FlattenSlice(holes, segs, h);
      assert V[4 + h * segs..4 + h * segs + segs] == Flatten(holes)[h * segs..h * segs + segs];
    }
  }

  lemma {:induction false} FlattenCons(rings: seq<seq<Vec2>>)
    requires |rings| > 0
    ensures Flatten(rings) == rings[0] + Flatten(rings[1..])
  {
    var n := |rings|;
    if n > 1 {
      FlattenCons(rings[..n - 1]);
      assert rings[..n - 1][1..] == rings[1..][..n - 2];
    } else {
      assert rings[..0] == [];
      assert rings[1..] == [];
    }
  }

  /** Appends the points of every ring, ring by ring, into one vertex list. */
  method FlattenRings(rings: seq<seq<Vec2>>) returns (V: seq<Vec2>)
    ensures V == Flatten(rings)
  {
    V := [];
    var r := 0;
    while r < |rings|
      invariant 0 <= r <= |rings|
      invariant V == Flatten(rings[..r])
    {
      var j := 0;
      while j < |rings[r]|
        invariant 0 <= j <= |rings[r]|
        invariant V == Flatten(rings[..r]) + rings[r][..j]
      {
        V := V + [rings[r][j]];
        j := j + 1;
      }
      assert rings[..r + 1][..r] == rings[..r];
      r := r + 1;
    }
    assert rings[..r] == rings;
  }

  /**
   * The two vertex loops: V copied at z = 0, then each of those N vertices
   * copied again at z = wallHeight, so vertex N + i lies above vertex i.
   */
  method LiftVertices(V: seq<Vec2>, wallHeight: real) returns (vertices: seq<Vec3>)
    ensures |vertices| == 2 * |V|
    ensures forall i :: 0 <= i < |V| ==> vertices[i] == Vec3(V[i].x, V[i].y, 0.0)
    ensures forall i :: 0 <= i < |V| ==> vertices[|V| + i] == Vec3(V[i].x, V[i].y, wallHeight)
  {
    vertices := [];
    var k := 0;
    while k < |V|
      invariant 0 <= k <= |V|
      invariant |vertices| == k
      invariant forall i :: 0 <= i < k ==> vertices[i] == Vec3(V[i].x, V[i].y, 0.0)
    {
      vertices := vertices + [Vec3(V[k].x, V[k].y, 0.0)];
      k := k + 1;
    }
    var N := |vertices|;
    var i := 0;
    while i < N
      invariant 0 <= i <= N
      invariant |vertices| == N + i
      invariant forall j :: 0 <= j < N ==> vertices[j] == Vec3(V[j].x, V[j].y, 0.0)
      invariant forall j :: 0 <= j < i ==> vertices[N + j] == Vec3(V[j].x, V[j].y, wallHeight)
    {
      var v := vertices[i];
      vertices := vertices + [Vec3(v.x, v.y, wallHeight)];
      i := i + 1;
    }
  }

  // ---------------------------------------------------------------------------
  // Cap faces

  /**
   * For every complete triple (a, b, c) of the triangulation, the bottom face
   * (c, b, a) and the top face (a+N, b+N, c+N); a trailing partial triple
   * contributes nothing.
   */
  function CapFaces(I: seq<nat>, N: nat): seq<Face>
  {
    if |I| < 3 then []
    else [Face(I[2], I[1], I[0]), Face(I[0] + N, I[1] + N, I[2] + N)] + CapFaces(I[3..], N)
  }

  /** Two cap faces per complete triple. */
  lemma {:induction false} CapFacesCount(I: seq<nat>, N: nat)
    ensures |CapFaces(I, N)| == 2 * (|I| / 3)
  {
    if |I| >= 3 {
      CapFacesCount(I[3..], N);
    }
  }

  /** Triple t yields face 2t, reversed at the bottom, and face 2t+1, lifted on top. */
  lemma {:induction false} CapFacesAt(I: seq<nat>, N: nat, t: nat)
    requires 3 * t + 2 < |I|
    ensures |CapFaces(I, N)| > 2 * t + 1
    ensures CapFaces(I, N)[2 * t] == Face(I[3 * t + 2], I[3 * t + 1], I[3 * t])
    ensures CapFaces(I, N)[2 * t + 1] == Face(I[3 * t] + N, I[3 * t + 1] + N, I[3 * t + 2] + N)
  {
    CapFacesCount(I, N);
    if t > 0 {
      CapFacesAt(I[3..], N, t - 1);
    }
  }

  /** With every triangulation index below N, every cap face indexes below 2N. */
  lemma {:induction false} CapFacesWithin(I: seq<nat>, N: nat)
    requires forall k :: 0 <= k < |I| ==> I[k] < N
    ensures AllWithin(CapFaces(I, N), 0, 2 * N)
  {
    if |I| >= 3 {
      var rest := I[3..];
      assert forall k :: 0 <= k < |rest| ==> rest[k] == I[k + 3];
      CapFacesWithin(rest, N);
      var two := [Face(I[2], I[1], I[0]), Face(I[0] + N, I[1] + N, I[2] + N)];
      assert AllWithin(two, 0, 2 * N);
      assert CapFaces(I, N) == two + CapFaces(rest, N);
      forall j | 0 <= j < |CapFaces(I, N)| ensures FaceWithin(CapFaces(I, N)[j], 0, 2 * N) {
        if j >= 2 {
          assert CapFaces(I, N)[j] == CapFaces(rest, N)[j - 2];
        }
      }
    }
  }

  /**
   * Bottom faces (even positions) index the bottom copy [0, N) and top faces
   * (odd positions) the top copy [N, 2N).
   */
  lemma CapFacesLayers(I: seq<nat>, N: nat, t: nat)
    requires forall k :: 0 <= k < |I| ==> I[k] < N
    requires 3 * t + 2 < |I|
    ensures |CapFaces(I, N)| > 2 * t + 1
    ensures FaceWithin(CapFaces(I, N)[2 * t], 0, N)
    ensures FaceWithin(CapFaces(I, N)[2 * t + 1], N, 2 * N)
  {
    CapFacesAt(I, N, t);
  }

  /** Walks the triangle indices three at a time and emits, for each whole triangle, its bottom face and its top face. */
  method EmitCaps(I: seq<nat>, N: nat) returns (faces: seq<Face>)
    ensures faces == CapFaces(I, N)
  {
    faces := [];
    var i := 0;
    while i + 2 < |I|
      invariant 0 <= i <= |I|
      invariant faces + CapFaces(I[i..], N) == CapFaces(I, N)
    {
      assert I[i..][3..] == I[i + 3..];
      faces := faces + [Face(I[i + 2], I[i + 1], I[i + 0])];
      faces := faces + [Face(I[i + 0] + N, I[i + 1] + N, I[i + 2] + N)];
      i := i + 3;
    }
  }

  // ---------------------------------------------------------------------------
  // Side walls

  /**
   * The quad between ring vertices i and its cyclic successor within a ring
   * of `size` vertices starting at s: (i0, i1, i1+N) then (i0, i1+N, i0+N).
   */
  function Quad(s: nat, size: nat, N: nat, i: nat): seq<Face>
    requires size > 0
  {
    var i0 := s + i;
    var i1 := s + (i + 1) % size;
    [Face(i0, i1, i1 + N), Face(i0, i1 + N, i0 + N)]
  }

  /** The quads of the first `count` vertices of the ring. */
  function WallQuads(s: nat, size: nat, N: nat, count: nat): seq<Face>
    requires count > 0 ==> size > 0
  {
    if count == 0 then [] else WallQuads(s, size, N, count - 1) + Quad(s, size, N, count - 1)
  }

  /** The side wall of a whole ring: one quad per vertex, wrapping from the last to the first. */
  function RingWall(s: nat, size: nat, N: nat): seq<Face>
  {
    WallQuads(s, size, N, size)
  }

  /** v is a vertex of the ring [s, s+size) or of its lifted copy. */
  predicate InRing(v: int, s: nat, size: nat, N: nat)
  {
    s <= v < s + size || s + N <= v < s + size + N
  }

  predicate FaceInRing(f: Face, s: nat, size: nat, N: nat)
  {
    InRing(f.v1, s, size, N) && InRing(f.v2, s, size, N) && InRing(f.v3, s, size, N)
  }

  /**
   * A ring's wall has two faces per ring vertex, face pair i is the quad of
   * vertex i, and every face stays within the ring and its lifted copy.
   */
  lemma {:induction false} WallQuadsShape(s: nat, size: nat, N: nat, count: nat)
    requires count <= size && (count > 0 ==> size > 0)
    ensures |WallQuads(s, size, N, count)| == 2 * count
    ensures forall i :: 0 <= i < count ==>
      WallQuads(s, size, N, count)[2 * i..2 * i + 2] == Quad(s, size, N, i)
    ensures forall j :: 0 <= j < 2 * count ==> FaceInRing(WallQuads(s, size, N, count)[j], s, size, N)
  {
    if count > 0 {
      WallQuadsShape(s, size, N, count - 1);
      var prev := WallQuads(s, size, N, count - 1);
      var q := Quad(s, size, N, count - 1);
      assert WallQuads(s, size, N, count) == prev + q;
      forall i | 0 <= i < count
        ensures WallQuads(s, size, N, count)[2 * i..2 * i + 2] == Quad(s, size, N, i)
      {
        if i < count - 1 {
          assert (prev + q)[2 * i..2 * i + 2] == prev[2 * i..2 * i + 2];
        } else {
          assert (prev + q)[2 * i..2 * i + 2] == q;
        }
      }
    }
  }

  /** A ring's wall, stated for the whole ring. */
  lemma RingWallShape(s: nat, size: nat, N: nat)
    ensures |RingWall(s, size, N)| == 2 * size
    ensures forall j :: 0 <= j < 2 * size ==> FaceInRing(RingWall(s, size, N)[j], s, size, N)
    ensures forall i :: 0 <= i < size ==>
      RingWall(s, size, N)[2 * i] == Face(s + i, s + (i + 1) % size, s + (i + 1) % size + N) &&
      RingWall(s, size, N)[2 * i + 1] == Face(s + i, s + (i + 1) % size + N, s + i + N)
  {
    WallQuadsShape(s, size, N, size);
    forall i | 0 <= i < size
      ensures RingWall(s, size, N)[2 * i] == Face(s + i, s + (i + 1) % size, s + (i + 1) % size + N)
      ensures RingWall(s, size, N)[2 * i + 1] == Face(s + i, s + (i + 1) % size + N, s + i + N)
    {
      assert RingWall(s, size, N)[2 * i..2 * i + 2] == Quad(s, size, N, i);
    }
  }

  /** The walls of the first `holes` hole rings, ring h starting at vertex 4 + h*segs. */
  function HoleWalls(N: nat, segs: nat, holes: nat): seq<Face>
  {
    if holes == 0 then [] else HoleWalls(N, segs, holes - 1) + RingWall(4 + (holes - 1) * segs, segs, N)
  }

  /** The hole walls have 2*segs faces per hole. */
  lemma {:induction false} HoleWallsCount(N: nat, segs: nat, holes: nat)
    ensures |HoleWalls(N, segs, holes)| == 2 * segs * holes
  {
    if holes > 0 {
      HoleWallsCount(N, segs, holes - 1);
      RingWallShape(4 + (holes - 1) * segs, segs, N);
      assert 2 * segs * holes == 2 * segs * (holes - 1) + 2 * segs;
    }
  }

  /**
   * When the holes' vertices all lie below N, every hole-wall face stays in
   * [4, 4 + holes*segs) or its lifted copy.
   */
  lemma {:induction false} HoleWallsWithin(N: nat, segs: nat, holes: nat, hs: nat)
    requires hs == holes * segs && 4 + hs <= N
    ensures forall j :: 0 <= j < |HoleWalls(N, segs, holes)| ==>
      FaceInRing(HoleWalls(N, segs, holes)[j], 4, hs, N)
  {
    if holes > 0 {
      var s := 4 + (holes - 1) * segs;
      var prevHs := (holes - 1) * segs;
      assert hs == prevHs + segs;
      HoleWallsWithin(N, segs, holes - 1, prevHs);
      RingWallShape(s, segs, N);
      var prev := HoleWalls(N, segs, holes - 1);
      var w := RingWall(s, segs, N);
      forall j | 0 <= j < |prev + w| ensures FaceInRing((prev + w)[j], 4, hs, N) {
        if j < |prev| {
          assert FaceInRing(prev[j], 4, prevHs, N);
        } else {
          assert FaceInRing(w[j - |prev|], s, segs, N);
        }
      }
    }
  }

  /** The eight faces stitching the rectangle's corners 0..3 to their lifted copies. */
  method EmitOuterWall(N: nat) returns (faces: seq<Face>)
    ensures faces == RingWall(0, 4, N)
  {
    var o0, o1, o2, o3 := 0, 1, 2, 3;
    var t0, t1, t2, t3 := o0 + N, o1 + N, o2 + N, o3 + N;
    faces := [Face(o0, o1, t1), Face(o0, t1, t0),
              Face(o1, o2, t2), Face(o1, t2, t1),
              Face(o2, o3, t3), Face(o2, t3, t2),
              Face(o3, o0, t0), Face(o3, t0, t3)];
    assert WallQuads(0, 4, N, 1) == Quad(0, 4, N, 0);
    assert WallQuads(0, 4, N, 2) == Quad(0, 4, N, 0) + Quad(0, 4, N, 1);
    assert WallQuads(0, 4, N, 3) == Quad(0, 4, N, 0) + Quad(0, 4, N, 1) + Quad(0, 4, N, 2);
    assert Quad(0, 4, N, 3) == [Face(o3, o0, t0), Face(o3, t0, t3)];
  }

  /**
   * Stitches the wall of every hole: each of a hole's segs points is joined
   * to the next one round the ring, the last to the first, starting after
   * the rectangle's four points and segs points further for every hole.
   */
  method EmitHoleWalls(N: nat, segs: nat, holes: nat) returns (faces: seq<Face>)
    ensures faces == HoleWalls(N, segs, holes)
  {
    faces := [];
    var base := 4;
    var h := 0;
    while h < holes
      invariant 0 <= h <= holes
      invariant faces == HoleWalls(N, segs, h)
    {
      var s := base + h * segs;
      var i := 0;
      while i < segs
        invariant 0 <= i <= segs
        invariant faces == HoleWalls(N, segs, h) + WallQuads(s, segs, N, i)
      {
        var i0 := s + i;
        var i1 := s + (i + 1) % segs;
        faces := faces + [Face(i0, i1, i1 + N)];
        faces := faces + [Face(i0, i1 + N, i0 + N)];
        i := i + 1;
      }
      h := h + 1;
    }
  }

  /** All faces of the extruded solid, in the order they are pushed. */
  function ExtrudedFaces(I: seq<nat>, N: nat, segs: nat, holes: nat): seq<Face>
  {
    CapFaces(I, N) + RingWall(0, 4, N) + HoleWalls(N, segs, holes)
  }

  /** The face count is 2*floor(|I|/3) + 8 + 2*segs*holes. */
  lemma ExtrudedFacesCount(I: seq<nat>, N: nat, segs: nat, holes: nat)
    ensures |ExtrudedFaces(I, N, segs, holes)| == 2 * (|I| / 3) + 8 + 2 * segs * holes
  {
    CapFacesCount(I, N);
    RingWallShape(0, 4, N);
    HoleWallsCount(N, segs, holes);
  }

  lemma AllWithinAppend(a: seq<Face>, b: seq<Face>, lo: int, hi: int)
    requires AllWithin(a, lo, hi) && AllWithin(b, lo, hi)
    ensures AllWithin(a + b, lo, hi)
  {
    forall j | 0 <= j < |a + b| ensures FaceWithin((a + b)[j], lo, hi) {
      if j >= |a| {
        assert (a + b)[j] == b[j - |a|];
      }
    }
  }

  /** A ring wall below N, with its lifted copy, stays below 2N. */
  lemma RingFacesWithin(fs: seq<Face>, s: nat, size: nat, N: nat)
    requires s + size <= N
    requires forall j :: 0 <= j < |fs| ==> FaceInRing(fs[j], s, size, N)
    ensures AllWithin(fs, 0, 2 * N)
  {
    forall j | 0 <= j < |fs| ensures FaceWithin(fs[j], 0, 2 * N) {
      assert FaceInRing(fs[j], s, size, N);
    }
  }

  lemma RingWallWithin(s: nat, size: nat, N: nat)
    requires s + size <= N
    ensures AllWithin(RingWall(s, size, N), 0, 2 * N)
  {
    WallQuadsShape(s, size, N, size);
    RingFacesWithin(RingWall(s, size, N), s, size, N);
  }

  lemma HoleWallsBelow(N: nat, segs: nat, holes: nat)
    requires N == 4 + holes * segs
    ensures AllWithin(HoleWalls(N, segs, holes), 0, 2 * N)
  {
    HoleWallsWithin(N, segs, holes, holes * segs);
    RingFacesWithin(HoleWalls(N, segs, holes), 4, holes * segs, N);
  }

  /**
   * When every triangulation index is a vertex (below N = 4 + holes*segs),
   * every face index of the solid is below 2N.
   */
  lemma ExtrudedFacesWithin(I: seq<nat>, segs: nat, holes: nat, N: nat)
    requires N == 4 + holes * segs
    requires forall k :: 0 <= k < |I| ==> I[k] < N
    ensures AllWithin(ExtrudedFaces(I, N, segs, holes), 0, 2 * N)
  {
    CapFacesWithin(I, N);
    RingWallWithin(0, 4, N);
    HoleWallsBelow(N, segs, holes);
    AllWithinAppend(CapFaces(I, N), RingWall(0, 4, N), 0, 2 * N);
    AllWithinAppend(CapFaces(I, N) + RingWall(0, 4, N), HoleWalls(N, segs, holes), 0, 2 * N);
  }

  // ---------------------------------------------------------------------------
  // Application::run

  lemma MulAssoc(a: int, b: int, c: int)
    ensures a * (b * c) == a * b * c
  {
  }

  /**
   * The mesh half of Application::run, for a ring set of a 4-point outer
   * rectangle and `holes` rings of segs points: the vertex list V of
   * N = 4 + holes*segs points lifted into a bottom and a top copy, then the
   * cap faces of the triangulation I, the outer wall over vertices 0..3 and
   * the hole walls, the first hole starting at vertex 4.
   */
  method Extrude(rings: seq<seq<Vec2>>, segs: nat, holes: nat, I: seq<nat>, wallHeight: real)
    returns (m: Mesh)
    requires |rings| == 1 + holes && |rings[0]| == 4
    requires forall j :: 0 < j < |rings| ==> |rings[j]| == segs
    ensures var N := 4 + holes * segs;
      var V := Flatten(rings);
      |V| == N && |m.vertices| == 2 * N &&
      (forall i :: 0 <= i < N ==> m.vertices[i] == Vec3(V[i].x, V[i].y, 0.0)) &&
      (forall i :: 0 <= i < N ==> m.vertices[N + i] == Vec3(V[i].x, V[i].y, wallHeight))
    ensures m.faces == ExtrudedFaces(I, 4 + holes * segs, segs, holes)
    ensures |m.faces| == 2 * (|I| / 3) + 8 + 2 * segs * holes
    ensures (forall k :: 0 <= k < |I| ==> I[k] < 4 + holes * segs) ==> IndicesInRange(m)
  {
    var V := FlattenRings(rings);
    RingVertexOffsets(rings, segs);
    var vertices := LiftVertices(V, wallHeight);
    var N := |V|;
    var caps := EmitCaps(I, N);
    var outer := EmitOuterWall(N);
    var sides := EmitHoleWalls(N, segs, holes);
    m := Mesh(vertices, caps + outer + sides);
    ExtrudedFacesCount(I, N, segs, holes);
    if forall k :: 0 <= k < |I| ==> I[k] < N {
      ExtrudedFacesWithin(I, segs, holes, N);
    }
  }

  /**
   * Application::run with its fixed parameters as arguments and the
   * triangulation I of the ring set as an input: builds the ring set at the
   * width and height fitRect requires for the grid and extrudes it. The
   * vertex list has N = 4 + series*parallel*segs points, the mesh 2N
   * vertices and 2*floor(|I|/3) + 8 + 2*segs*series*parallel faces, and
   * when every triangulation index is below N every face index is below 2N.
   */
  method Run(cellDia: real, wall: real, wallHeight: real, spacing: real,
             series: nat, parallel: nat, segs: nat, honeycomb: bool,
             I: seq<nat>, cos: real -> real, sin: real -> real)
    returns (rings: seq<seq<Vec2>>, m: Mesh)
    ensures var pitch := CellLayout.Pitch(cellDia, spacing);
      rings == CellLayout.RingSet(CellLayout.RequiredWidth(series, pitch, wall, honeycomb),
                                  CellLayout.RequiredHeight(parallel, CellLayout.RowStep(pitch, honeycomb), wall),
                                  cellDia, spacing, wall, series, parallel, segs, honeycomb, cos, sin)
    ensures var N := 4 + series * parallel * segs;
      var V := Flatten(rings);
      |V| == N && |m.vertices| == 2 * N &&
      (forall i :: 0 <= i < N ==> m.vertices[i] == Vec3(V[i].x, V[i].y, 0.0)) &&
      (forall i :: 0 <= i < N ==> m.vertices[N + i] == Vec3(V[i].x, V[i].y, wallHeight))
    ensures m.faces == ExtrudedFaces(I, 4 + series * parallel * segs, segs, series * parallel)
    ensures |m.faces| == 2 * (|I| / 3) + 8 + 2 * segs * series * parallel
    ensures (forall k :: 0 <= k < |I| ==> I[k] < 4 + series * parallel * segs) ==> IndicesInRange(m)
  {
    // W and H are the overall sizes fitRect's formulas give for this grid
    var pitch := CellLayout.Pitch(cellDia, spacing);
    var W := CellLayout.RequiredWidth(series, pitch, wall, honeycomb);
    var H := CellLayout.RequiredHeight(parallel, CellLayout.RowStep(pitch, honeycomb), wall);
    rings := CellLayout.RectangleFixed(W, H, cellDia, spacing, wall, series, parallel, segs, honeycomb, cos, sin);
    CellLayout.RingSetShape(W, H, cellDia, spacing, wall, series, parallel, segs, honeycomb, cos, sin);
    m := Extrude(rings, segs, series * parallel, I, wallHeight);
    MulAssoc(2 * segs, series, parallel);
  }
}
