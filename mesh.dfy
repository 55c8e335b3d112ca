/** The mesh shapes of mesh.h: triangles by vertex index, and vertex/face lists. */
module MeshTypes {
  import opened Vector3

  /** A triangle given by three vertex indices (C++ int). */
  datatype Face = Face(v1: int, v2: int, v3: int)

  /** A triangle mesh: a vertex list and a face list. */
  datatype Mesh = Mesh(vertices: seq<Vec3>, faces: seq<Face>)

  /** Every index of f lies in [lo, hi). */
  predicate FaceWithin(f: Face, lo: int, hi: int)
  {
    lo <= f.v1 < hi && lo <= f.v2 < hi && lo <= f.v3 < hi
  }

  /** Every index of every face of fs lies in [lo, hi). */
  predicate AllWithin(fs: seq<Face>, lo: int, hi: int)
  {
    forall j :: 0 <= j < |fs| ==> FaceWithin(fs[j], lo, hi)
  }

  /** Every face of m references a vertex of m. */
  predicate IndicesInRange(m: Mesh)
  {
    AllWithin(m.faces, 0, |m.vertices|)
  }
}
