/** src/light.rs: a light is either a point light, which shines from a
    position and falls off with the squared distance, or a directional light,
    which shines the same way everywhere. Each answers four queries about a
    point being lit: its colour, the intensity arriving there, the direction
    back towards the light and the distance to it. */
module Lights {
  import opened Numeric
  import opened Vectors
  import Colors

  datatype PointLight = PointLight(position: Vector3, color: Colors.Color, intensity: real)

  datatype DirectionalLight = DirectionalLight(direction: Vector3, color: Colors.Color, intensity: real)

  datatype Light = Point(point: PointLight) | Directional(directional: DirectionalLight)

  /** `Light::color`: the colour of whichever light it is. */
  function LightColor(l: Light): (c: Colors.Color)
    ensures l.Point? ==> c == l.point.color
    ensures l.Directional? ==> c == l.directional.color
  {
    match l
    case Point(p) => p.color
    case Directional(d) => d.color
  }

  /** The denominator a point light divides its intensity by at `p`:
      `4 * PI * norm(position - p)`, the area of the sphere through `p` when
      `norm` is the squared length. */
  function Spread(light: PointLight, p: Vector3, ops: VectorOps): real {
    4.0 * Pi * ops.norm(Sub(light.position, p))
  }

  /** `Light::intensity`: a point light spreads its intensity over the sphere
      through the point (an IEEE division, so a point on the light gives an
      infinity or NaN); a directional light gives its intensity everywhere. */
  function Intensity(l: Light, p: Vector3, ops: VectorOps): (r: Float)
    ensures l.Directional? ==> r == Finite(l.directional.intensity)
    ensures l.Point? && Spread(l.point, p, ops) != 0.0 ==>
      r.Finite? && r.value * Spread(l.point, p, ops) == l.point.intensity
    ensures l.Point? && Spread(l.point, p, ops) == 0.0 ==> !r.Finite?
  {
    match l
    case Point(light) => Div(light.intensity, Spread(light, p, ops))
    case Directional(light) => Finite(light.intensity)
  }

  /** `Light::direction`: towards a point light's position, or against a
      directional light's direction, normalised in both cases. */
  function Direction(l: Light, p: Vector3, ops: VectorOps): (d: Vector3)
    ensures l.Point? ==> d == ops.normalize(Sub(l.point.position, p))
    ensures l.Directional? ==> d == ops.normalize(Neg(l.directional.direction))
  {
    var towards := match l
      case Point(light) => Sub(light.position, p)
      case Directional(light) => Neg(light.direction);
    ops.normalize(towards)
  }

  /** `Light::distance`: the length of the offset to a point light, or
      positive infinity for a directional light. */
  function Distance(l: Light, p: Vector3, ops: VectorOps): (r: Float)
    ensures l.Point? ==> r == Finite(ops.length(Sub(l.point.position, p)))
    ensures l.Directional? ==> r.PosInf?
  {
    match l
    case Point(light) => Finite(ops.length(Sub(light.position, p)))
    case Directional(_) => PosInf
  }

  /** A directional light answers every query the same way at every point. */
  lemma DirectionalIgnoresPoint(l: Light, p: Vector3, q: Vector3, ops: VectorOps)
    requires l.Directional?
    ensures Intensity(l, p, ops) == Intensity(l, q, ops) == Finite(l.directional.intensity)
    ensures Direction(l, p, ops) == Direction(l, q, ops)
    ensures Distance(l, p, ops) == Distance(l, q, ops) == PosInf
  {
  }

  /** The light moved by `offset`; a directional light has no position. */
  function Translate(l: Light, offset: Vector3): (moved: Light)
    ensures moved.Point? <==> l.Point?
    ensures LightColor(moved) == LightColor(l)
    ensures l.Point? ==> moved.point.intensity == l.point.intensity
    ensures l.Point? ==> Sub(moved.point.position, l.point.position) == offset
    ensures l.Directional? ==> moved == l
  {
    match l
    case Point(light) => Point(light.(position := Add(light.position, offset)))
    case Directional(_) => l
  }

  /** A point light sees the point only through the offset between them: any
      two configurations with the same offset, colour and intensity agree on
      every query. */
  lemma PointDependsOnOffset(a: PointLight, p: Vector3, b: PointLight, q: Vector3, ops: VectorOps)
    requires Sub(a.position, p) == Sub(b.position, q)
    requires a.intensity == b.intensity
    ensures Intensity(Point(a), p, ops) == Intensity(Point(b), q, ops)
    ensures Direction(Point(a), p, ops) == Direction(Point(b), q, ops)
    ensures Distance(Point(a), p, ops) == Distance(Point(b), q, ops)
  {
    assert Spread(a, p, ops) == Spread(b, q, ops);
  }

  /** Moving the light and the lit point by the same offset changes no query. */
  lemma TranslationInvariant(l: Light, p: Vector3, offset: Vector3, ops: VectorOps)
    ensures Intensity(Translate(l, offset), Add(p, offset), ops) == Intensity(l, p, ops)
    ensures Direction(Translate(l, offset), Add(p, offset), ops) == Direction(l, p, ops)
    ensures Distance(Translate(l, offset), Add(p, offset), ops) == Distance(l, p, ops)
  {
    if l.Point? {
      var moved := Translate(l, offset).point;
      assert Sub(moved.position, Add(p, offset)) == Sub(l.point.position, p);
      PointDependsOnOffset(moved, Add(p, offset), l.point, p, ops);
    }
  }

  /** At a fixed point away from the light, a point light's intensity there is
      proportional to its configured intensity. */
  lemma IntensityLinear(light: PointLight, k: real, p: Vector3, ops: VectorOps)
    requires Spread(light, p, ops) != 0.0
    ensures Intensity(Point(light.(intensity := k * light.intensity)), p, ops).value
         == k * Intensity(Point(light), p, ops).value
  {
    var s := Spread(light, p, ops);
    var scaled := light.(intensity := k * light.intensity);
    assert Spread(scaled, p, ops) == s;
    QuotientOfMultiple(k, light.intensity, s);
  }

  lemma QuotientOfMultiple(k: real, i: real, s: real)
    requires s != 0.0
    ensures (k * i) / s == k * (i / s)
  {
  }

  /** Inverse-square falloff: where `norm(position - p)` is four times as large
      (twice as far, when `norm` is the squared length), the intensity is a
      quarter. */
  lemma InverseSquare(light: PointLight, p: Vector3, q: Vector3, ops: VectorOps)
    requires Spread(light, p, ops) != 0.0
    requires ops.norm(Sub(light.position, q)) == 4.0 * ops.norm(Sub(light.position, p))
    ensures Intensity(Point(light), q, ops).value * 4.0 == Intensity(Point(light), p, ops).value
  {
    var s := Spread(light, p, ops);
    assert Spread(light, q, ops) == 4.0 * s;
    QuarterQuotient(light.intensity, s);
  }

  lemma QuarterQuotient(i: real, s: real)
    requires s != 0.0
    ensures (i / (4.0 * s)) * 4.0 == i / s
  {
  }
}
