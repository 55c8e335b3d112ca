/** Three-dimensional points and their arithmetic (vec3.cpp). */
module Vector3 {

  /** A 3D point; the three-argument constructor is the datatype constructor. */
  datatype Vec3 = Vec3(x: real, y: real, z: real)

  /** The default constructor: the origin, the identity of Add. */
  function Origin(): (r: Vec3)
    ensures forall v: Vec3 {:trigger Add(v, r)} :: Add(v, r) == v
  {
    Vec3(0.0, 0.0, 0.0)
  }

  /** Componentwise sum (operator+). */
  function Add(a: Vec3, b: Vec3): (r: Vec3)
    ensures r.x - b.x == a.x && r.y - b.y == a.y && r.z - b.z == a.z
  {
    Vec3(a.x + b.x, a.y + b.y, a.z + b.z)
  }

  /** Componentwise difference (operator-): the inverse of adding b. */
  function Sub(a: Vec3, b: Vec3): (r: Vec3)
    ensures Add(r, b) == a
  {
    Vec3(a.x - b.x, a.y - b.y, a.z - b.z)
  }

  /** Scalar product; not in the source, used to state what Cross means. */
  function Dot(a: Vec3, b: Vec3): real
  {
    a.x * b.x + a.y * b.y + a.z * b.z
  }

  /** The cross product: orthogonal to both of its arguments. */
  function Cross(a: Vec3, b: Vec3): (r: Vec3)
    ensures Dot(a, r) == 0.0 && Dot(b, r) == 0.0
  {
    Vec3(a.y * b.z - a.z * b.y, a.z * b.x - a.x * b.z, a.x * b.y - a.y * b.x)
  }

  /**
   * normalize(): divides by the length when it is positive and gives the
   * origin otherwise. The square root is a parameter, since the model has no
   * floating-point sqrt; the zero vector maps to the origin whatever it is.
   */
  function Normalize(v: Vec3, sqrt: real -> real): (r: Vec3)
    ensures sqrt(Dot(v, v)) <= 0.0 ==> r == Origin()
    ensures v == Origin() ==> r == Origin()
  {
    var l := sqrt(Dot(v, v));
    if l > 0.0 then
      assert v == Origin() ==> v.x / l == 0.0 && v.y / l == 0.0 && v.z / l == 0.0;
      Vec3(v.x / l, v.y / l, v.z / l)
    else
      Vec3(0.0, 0.0, 0.0)
  }

  lemma AddThenSub(a: Vec3, b: Vec3)
    ensures Sub(Add(a, b), b) == a
  {
  }

  lemma SubSelf(a: Vec3)
    ensures Sub(a, a) == Origin()
  {
  }

  lemma CrossAnticommutes(a: Vec3, b: Vec3)
    ensures Cross(a, b) == Sub(Origin(), Cross(b, a))
  {
  }

  lemma CrossSelf(a: Vec3)
    ensures Cross(a, a) == Origin()
  {
  }
}
