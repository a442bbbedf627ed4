/** Three- and two-component vectors over the reals. The vector module of the
    renderer is not part of this model: its componentwise operations are written
    out here, and the operations whose exact value it does not pin down (square
    root, normalisation, squared norm, length) are passed to every query that
    needs them, as a `VectorOps` value. */
module Vectors {

  datatype Vector3 = Vector3(x: real, y: real, z: real)

  /** A texture (UV) coordinate. */
  datatype Vector2 = Vector2(x: real, y: real)

  function Add(a: Vector3, b: Vector3): Vector3 {
    Vector3(a.x + b.x, a.y + b.y, a.z + b.z)
  }

  function Sub(a: Vector3, b: Vector3): Vector3 {
    Vector3(a.x - b.x, a.y - b.y, a.z - b.z)
  }

  function Neg(a: Vector3): Vector3 {
    Vector3(-a.x, -a.y, -a.z)
  }

  /** `v * s` for a vector and a scalar. */
  function Scale(a: Vector3, s: real): Vector3 {
    Vector3(a.x * s, a.y * s, a.z * s)
  }

  function Dot(a: Vector3, b: Vector3): real {
    a.x * b.x + a.y * b.y + a.z * b.z
  }

  /** The operations the model leaves abstract: `f32::sqrt` and the vector
      module's `normalize`, `norm` (the squared length) and `length`. */
  datatype VectorOps = VectorOps(
    sqrt: real -> real,
    normalize: Vector3 -> Vector3,
    norm: Vector3 -> real,
    length: Vector3 -> real)

  /** The one fact the model assumes of the square root: it is never negative. */
  ghost predicate SqrtNonNegative(ops: VectorOps) {
    forall x :: 0.0 <= x ==> 0.0 <= ops.sqrt(x)
  }

  /** An exact square root, for the geometric lemmas that need one. */
  ghost predicate SqrtExact(ops: VectorOps) {
    forall x :: 0.0 <= x ==> 0.0 <= ops.sqrt(x) && ops.sqrt(x) * ops.sqrt(x) == x
  }

  /** Moving a point `t` units along `d` changes its dot product with `n` by `t * (d . n)`. */
  lemma DotAlongRay(o: Vector3, d: Vector3, t: real, p: Vector3, n: Vector3)
    ensures Dot(Sub(Add(o, Scale(d, t)), p), n) == Dot(Sub(o, p), n) + t * Dot(d, n)
  {
    var v := Sub(Add(o, Scale(d, t)), p);
    assert v.x * n.x == (o.x - p.x) * n.x + t * (d.x * n.x);
    assert v.y * n.y == (o.y - p.y) * n.y + t * (d.y * n.y);
    assert v.z * n.z == (o.z - p.z) * n.z + t * (d.z * n.z);
  }

  /** The squared distance from `c` of the point `t` units along a ray from `o`
      in direction `d`, as a quadratic in `t`. */
  lemma SquaredOffsetAlongRay(o: Vector3, d: Vector3, t: real, c: Vector3)
    ensures
      var line := Sub(c, o);
      var v := Sub(Add(o, Scale(d, t)), c);
      Dot(v, v) == t * t * Dot(d, d) - 2.0 * t * Dot(line, d) + Dot(line, line)
  {
    SquareOfDifference(t, d.x, c.x - o.x);
    SquareOfDifference(t, d.y, c.y - o.y);
    SquareOfDifference(t, d.z, c.z - o.z);
    SumOfScaledSquares(t, d);
  }

  lemma SquareOfDifference(t: real, a: real, l: real)
    ensures (t * a - l) * (t * a - l) == t * t * (a * a) - 2.0 * t * (l * a) + l * l
  {
  }

  lemma SumOfScaledSquares(t: real, d: Vector3)
    ensures t * t * (d.x * d.x) + t * t * (d.y * d.y) + t * t * (d.z * d.z) == t * t * Dot(d, d)
  {
  }
}
