/** Two-dimensional points and their arithmetic (vec2.cpp). */
module Vector2 {

  /** A 2D point; the two-argument constructor is the datatype constructor. */
  datatype Vec2 = Vec2(x: real, y: real)

  /** The default constructor: the origin, the identity of Add. */
  function Origin(): (r: Vec2)
    ensures forall v: Vec2 {:trigger Add(v, r)} :: Add(v, r) == v
  {
    Vec2(0.0, 0.0)
  }

  /** Componentwise sum (operator+). */
  function Add(a: Vec2, b: Vec2): (r: Vec2)
    ensures r.x - b.x == a.x && r.y - b.y == a.y
  {
    Vec2(a.x + b.x, a.y + b.y)
  }

  /** Componentwise difference (operator-): the inverse of adding b. */
  function Sub(a: Vec2, b: Vec2): (r: Vec2)
    ensures Add(r, b) == a
  {
    Vec2(a.x - b.x, a.y - b.y)
  }

  lemma AddCommutes(a: Vec2, b: Vec2)
    ensures Add(a, b) == Add(b, a)
  {
  }

  lemma AddThenSub(a: Vec2, b: Vec2)
    ensures Sub(Add(a, b), b) == a
  {
  }

  lemma SubSelf(a: Vec2)
    ensures Sub(a, a) == Origin()
  {
  }
}
