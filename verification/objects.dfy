/** src/object.rs: the scene's primitives, spheres and planes, with the
    distance along a ray at which a ray meets one, the surface normal there and
    the colour a single light gives the hit point. The ray and the light it
    shades with are the plain structs of src/render.rs, not the light enum of
    src/light.rs. */
module Objects {
  import opened Numeric
  import opened Vectors
  import Colors

  /** `render::Ray`. */
  datatype Ray = Ray(origin: Vector3, direction: Vector3)

  /** `render::Light`: a light shining along `direction`. */
  datatype SceneLight = SceneLight(direction: Vector3, color: Colors.Color, intensity: real)

  datatype Sphere = Sphere(center: Vector3, radius: real, color: Colors.Color, albedo: real)

  /** An infinite plane through `origin` with normal `normal`. */
  datatype Plane = Plane(normal: Vector3, color: Colors.Color, albedo: real, origin: Vector3)

  datatype Object = OfSphere(sphere: Sphere) | OfPlane(plane: Plane)

  /** The point `t` units along the ray: `origin + direction * t`. */
  function At(ray: Ray, t: real): Vector3 {
    Add(ray.origin, Scale(ray.direction, t))
  }

  /** `Object::color`: the colour of whichever primitive it is. */
  function ObjectColor(o: Object): (c: Colors.Color)
    ensures o.OfSphere? ==> c == o.sphere.color
    ensures o.OfPlane? ==> c == o.plane.color
  {
    match o
    case OfSphere(s) => s.color
    case OfPlane(p) => p.color
  }

  /** `Object::albedo`: the albedo of whichever primitive it is. */
  function ObjectAlbedo(o: Object): (a: real)
    ensures o.OfSphere? ==> a == o.sphere.albedo
    ensures o.OfPlane? ==> a == o.plane.albedo
  {
    match o
    case OfSphere(s) => s.albedo
    case OfPlane(p) => p.albedo
  }

  /** `Object::surface_normal`: for a sphere the normalised offset of the hit
      point from the centre; for a plane the negated configured normal, the
      same at every hit point. */
  function SurfaceNormal(o: Object, hit: Vector3, ops: VectorOps): (n: Vector3)
    ensures o.OfSphere? ==> n == ops.normalize(Sub(hit, o.sphere.center))
    ensures o.OfPlane? ==> n == Neg(o.plane.normal)
  {
    match o
    case OfSphere(s) => ops.normalize(Sub(hit, s.center))
    case OfPlane(p) => Neg(p.normal)
  }

  /** A plane's normal does not depend on where the plane is hit. */
  lemma PlaneNormalIgnoresHitPoint(p: Plane, a: Vector3, b: Vector3, ops: VectorOps)
    ensures SurfaceNormal(OfPlane(p), a, ops) == SurfaceNormal(OfPlane(p), b, ops) == Neg(p.normal)
  {
  }

  // ------------------------------------------------------------------ plane

  /** Below this `|normal . direction|` the ray counts as parallel to a plane:
      the f32 nearest to `1e-6`, written out exactly. */
  const ParallelEpsilon: real := 0.0000009999999974752427078783512115478515625

  /** `Plane::intersect_distance`: no hit for a ray (nearly) parallel to the
      plane; otherwise the one `t` at which the ray's line crosses the plane,
      with no check of its sign. */
  function PlaneDistance(p: Plane, ray: Ray): (r: Option<real>)
    ensures r.None? <==> Abs(Dot(p.normal, ray.direction)) < ParallelEpsilon
    ensures r.Some? ==> Dot(Sub(At(ray, r.value), p.origin), p.normal) == 0.0
  {
    var denom := Dot(p.normal, ray.direction);
    if Abs(denom) < ParallelEpsilon then None
    else
      var distance := Dot(Sub(p.origin, ray.origin), p.normal) / denom;
      PlaneHitOnPlane(p, ray, distance);
      Some(distance)
  }

  /** The point at `num / denom` along the ray lies on the plane. */
  lemma PlaneHitOnPlane(p: Plane, ray: Ray, t: real)
    requires Dot(p.normal, ray.direction) != 0.0
    requires t == Dot(Sub(p.origin, ray.origin), p.normal) / Dot(p.normal, ray.direction)
    ensures Dot(Sub(At(ray, t), p.origin), p.normal) == 0.0
  {
    var denom := Dot(p.normal, ray.direction);
    var num := Dot(Sub(p.origin, ray.origin), p.normal);
    DotAlongRay(ray.origin, ray.direction, t, p.origin, p.normal);
    assert Dot(ray.direction, p.normal) == denom;
    assert Dot(Sub(ray.origin, p.origin), p.normal) == -num;
    assert t * denom == num;
  }

  /** The plane distance is the unique crossing: any `t` whose point lies on
      the plane is the reported distance. */
  lemma PlaneDistanceUnique(p: Plane, ray: Ray, t: real)
    requires PlaneDistance(p, ray).Some?
    requires Dot(Sub(At(ray, t), p.origin), p.normal) == 0.0
    ensures PlaneDistance(p, ray).value == t
  {
    var denom := Dot(p.normal, ray.direction);
    var num := Dot(Sub(p.origin, ray.origin), p.normal);
    DotAlongRay(ray.origin, ray.direction, t, p.origin, p.normal);
    assert Dot(ray.direction, p.normal) == denom;
    assert Dot(Sub(ray.origin, p.origin), p.normal) == -num;
    assert t * denom == num;
  }

  /** A plane behind the ray is still reported, at a negative distance: when
      the ray starts off the plane on one side and points further away from
      it, the crossing lies behind the origin and is returned all the same. */
  lemma PlaneBehindRay(p: Plane, ray: Ray)
    requires Abs(Dot(p.normal, ray.direction)) >= ParallelEpsilon
    requires 0.0 < Dot(Sub(ray.origin, p.origin), p.normal) * Dot(p.normal, ray.direction)
    ensures PlaneDistance(p, ray).Some?
    ensures PlaneDistance(p, ray).value < 0.0
  {
    var num := Dot(Sub(p.origin, ray.origin), p.normal);
    var denom := Dot(p.normal, ray.direction);
    assert Dot(Sub(ray.origin, p.origin), p.normal) == -num;
    QuotientNegative(num, denom);
  }

  lemma QuotientNegative(num: real, denom: real)
    requires 0.0 < -num * denom
    ensures denom != 0.0 && num / denom < 0.0
  {
    var q := num / denom;
    assert q * denom == num;
    assert -num * denom == -(q * denom * denom);
  }

  // ----------------------------------------------------------------- sphere

  /** The sphere test's quantities: `adj` is how far along the ray the point
      nearest the centre lies, `distance2` is the squared distance from that
      point to the centre. */
  function Adjacent(s: Sphere, ray: Ray): real {
    Dot(Sub(s.center, ray.origin), ray.direction)
  }

  function Distance2(s: Sphere, ray: Ray): real {
    var line := Sub(s.center, ray.origin);
    Dot(line, line) - Adjacent(s, ray) * Adjacent(s, ray)
  }

  /** `radius2 - distance2`: the square of half the chord the ray's line cuts
      through the sphere. */
  function HalfChord2(s: Sphere, ray: Ray): real {
    s.radius * s.radius - Distance2(s, ray)
  }

  /** Half the chord the ray cuts through the sphere. */
  function Thickness(s: Sphere, ray: Ray, ops: VectorOps): real {
    ops.sqrt(HalfChord2(s, ray))
  }

  /** `Sphere::intersect_distance`: no hit when the ray's line passes farther
      from the centre than the radius; otherwise the nearer of the two
      crossings, `adj - thickness`, whatever its sign. */
  function SphereDistance(s: Sphere, ray: Ray, ops: VectorOps): (r: Option<real>)
    ensures r.None? <==> Distance2(s, ray) > s.radius * s.radius
    ensures r.Some? ==> r.value <= Adjacent(s, ray) - Thickness(s, ray, ops)
    ensures r.Some? ==> r.value <= Adjacent(s, ray) + Thickness(s, ray, ops)
    ensures r.Some? ==>
      (r.value == Adjacent(s, ray) - Thickness(s, ray, ops) || r.value == Adjacent(s, ray) + Thickness(s, ray, ops))
  {
    var adj := Adjacent(s, ray);
    if Distance2(s, ray) > s.radius * s.radius then None
    else
      var thickness := Thickness(s, ray, ops);
      Some(Min(adj - thickness, adj + thickness))
  }

  /** With a non-negative square root the reported crossing is the near one,
      `adj - thickness`, and lies before `adj` on the ray. */
  lemma SphereNearRoot(s: Sphere, ray: Ray, ops: VectorOps)
    requires SqrtNonNegative(ops)
    requires SphereDistance(s, ray, ops).Some?
    ensures SphereDistance(s, ray, ops).value == Adjacent(s, ray) - Thickness(s, ray, ops)
    ensures SphereDistance(s, ray, ops).value <= Adjacent(s, ray)
  {
    assert 0.0 <= HalfChord2(s, ray);
  }

  /** On a miss, no point of the ray's line (for a unit direction) comes within
      the radius of the centre. */
  lemma SphereMissIsMiss(s: Sphere, ray: Ray, ops: VectorOps, t: real)
    requires Dot(ray.direction, ray.direction) == 1.0
    requires SphereDistance(s, ray, ops).None?
    ensures Dot(Sub(At(ray, t), s.center), Sub(At(ray, t), s.center)) > s.radius * s.radius
  {
    SquaredOffsetOnUnitRay(s, ray, t);
    SquareNonNegative(t - Adjacent(s, ray));
  }

  /** For a unit direction, the squared distance from the centre of the point
      `t` along the ray is `(t - adj)^2 + distance2`. */
  lemma SquaredOffsetOnUnitRay(s: Sphere, ray: Ray, t: real)
    requires Dot(ray.direction, ray.direction) == 1.0
    ensures Dot(Sub(At(ray, t), s.center), Sub(At(ray, t), s.center))
         == (t - Adjacent(s, ray)) * (t - Adjacent(s, ray)) + Distance2(s, ray)
  {
    var line := Sub(s.center, ray.origin);
    var adj := Adjacent(s, ray);
    SquaredOffsetAlongRay(ray.origin, ray.direction, t, s.center);
    assert Dot(line, ray.direction) == adj;
    UnitQuadratic(t, adj, Dot(line, line));
  }

  lemma UnitQuadratic(t: real, adj: real, ll: real)
    ensures t * t * 1.0 - 2.0 * t * adj + ll == (t - adj) * (t - adj) + (ll - adj * adj)
  {
  }

  lemma SquareNonNegative(x: real)
    ensures 0.0 <= x * x
  {
    if x < 0.0 { assert x * x == (-x) * (-x); }
  }

  /** With an exact square root and a unit direction, the reported point is on
      the sphere's surface. */
  lemma SphereHitOnSurface(s: Sphere, ray: Ray, ops: VectorOps)
    requires SqrtExact(ops)
    requires Dot(ray.direction, ray.direction) == 1.0
    requires SphereDistance(s, ray, ops).Some?
    ensures var hit := At(ray, SphereDistance(s, ray, ops).value);
      Dot(Sub(hit, s.center), Sub(hit, s.center)) == s.radius * s.radius
  {
    var t := SphereDistance(s, ray, ops).value;
    var r2 := s.radius * s.radius;
    var d2 := Distance2(s, ray);
    var th := Thickness(s, ray, ops);
    assert 0.0 <= HalfChord2(s, ray) == r2 - d2;
    assert th * th == r2 - d2;
    SphereNearRoot(s, ray, ops);
    SquaredOffsetOnUnitRay(s, ray, t);
    assert t - Adjacent(s, ray) == -th;
    assert (t - Adjacent(s, ray)) * (t - Adjacent(s, ray)) == th * th;
  }

  /** A sphere entirely behind the ray is still reported, at a negative
      distance: both crossings lying behind the origin is not treated as a
      miss. */
  lemma SphereBehindRay(s: Sphere, ray: Ray, ops: VectorOps)
    requires SqrtNonNegative(ops)
    requires Distance2(s, ray) <= s.radius * s.radius
    requires Adjacent(s, ray) + Thickness(s, ray, ops) < 0.0
    ensures SphereDistance(s, ray, ops).Some?
    ensures SphereDistance(s, ray, ops).value < 0.0
  {
    SphereNearRoot(s, ray, ops);
  }

  // --------------------------------------------------------------- dispatch

  /** `Object::intersect_distance`: the active primitive's own test. */
  function IntersectDistance(o: Object, ray: Ray, ops: VectorOps): (r: Option<real>)
    ensures o.OfSphere? ==> r == SphereDistance(o.sphere, ray, ops)
    ensures o.OfPlane? ==> r == PlaneDistance(o.plane, ray)
  {
    match o
    case OfSphere(s) => SphereDistance(s, ray, ops)
    case OfPlane(p) => PlaneDistance(p, ray)
  }

  // ---------------------------------------------------------------- shading

  /** The share of the light landing on the surface:
      `max(normal . -normalize(light.direction), 0) * intensity`. */
  function LightFactor(normal: Vector3, light: SceneLight, ops: VectorOps): (f: real)
    ensures 0.0 <= light.intensity ==> 0.0 <= f
    ensures Dot(normal, Neg(ops.normalize(light.direction))) <= 0.0 ==> f == 0.0
    ensures light.intensity == 0.0 ==> f == 0.0
  {
    var facing := Max(Dot(normal, Neg(ops.normalize(light.direction))), 0.0);
    NonNegativeProduct(facing, light.intensity);
    facing * light.intensity
  }

  lemma NonNegativeProduct(x: real, y: real)
    requires 0.0 <= x
    ensures 0.0 <= y ==> 0.0 <= x * y
  {
    if 0.0 <= y { assert 0.0 * y <= x * y; }
  }

  /** One channel of the shaded colour: both colours' channel fractions
      multiplied, scaled by the light factor and the reflected share, back to
      [0, 255] and cast with `as u8`. */
  function ShadeChannel(objectChannel: U8, lightChannel: U8, factor: real, reflected: real): (r: U8)
    ensures factor == 0.0 || reflected == 0.0 ==> r == 0
  {
    var a := ChannelFraction(objectChannel);
    var b := ChannelFraction(lightChannel);
    ZeroFactorDark(a, b, factor, reflected);
    CastU8(ShadeValue(a, b, factor, reflected))
  }

  lemma ZeroFactorDark(a: real, b: real, factor: real, reflected: real)
    ensures factor == 0.0 || reflected == 0.0 ==> ShadeValue(a, b, factor, reflected) == 0.0
  {
  }

  /** With a light factor and a reflected share both in [0, 1], a shaded
      channel is no brighter than the object's or the light's. */
  lemma {:induction false} ShadeChannelDims(objectChannel: U8, lightChannel: U8, factor: real, reflected: real)
    requires 0.0 <= factor <= 1.0 && 0.0 <= reflected <= 1.0
    ensures ShadeChannel(objectChannel, lightChannel, factor, reflected) <= objectChannel
    ensures ShadeChannel(objectChannel, lightChannel, factor, reflected) <= lightChannel
  {
    var a := ChannelFraction(objectChannel);
    var b := ChannelFraction(lightChannel);
    ShadedBoth(a, b, factor, reflected);
    CastU8AtMost(ShadeValue(a, b, factor, reflected), objectChannel as real);
    CastU8AtMost(ShadeValue(a, b, factor, reflected), lightChannel as real);
  }

  /** `channel as f32 / 255.0`. */
  function ChannelFraction(channel: U8): (f: real)
    ensures 0.0 <= f <= 1.0 && f * 255.0 == channel as real
  {
    channel as real / 255.0
  }

  /** The unrounded shaded channel value for channel fractions `a` and `b`. */
  function ShadeValue(a: real, b: real, factor: real, reflected: real): real {
    a * b * factor * reflected * 255.0
  }

  lemma ShadedBoth(a: real, b: real, f: real, g: real)
    requires 0.0 <= a <= 1.0 && 0.0 <= b <= 1.0
    requires 0.0 <= f <= 1.0 && 0.0 <= g <= 1.0
    ensures 0.0 <= ShadeValue(a, b, f, g) <= a * 255.0
    ensures ShadeValue(a, b, f, g) <= b * 255.0
  {
    ShadedAtMost(a, b, f, g);
    ShadedAtMost(b, a, f, g);
    var ab := a * b;
    assert ab == b * a;
    assert ShadeValue(a, b, f, g) == ab * f * g * 255.0;
    assert b * a * f * g * 255.0 == ab * f * g * 255.0;
  }

  /** `a * b * f * g * 255 <= a * 255` when all four factors are in [0, 1]. */
  lemma ShadedAtMost(a: real, b: real, f: real, g: real)
    requires 0.0 <= a <= 1.0 && 0.0 <= b <= 1.0
    requires 0.0 <= f <= 1.0 && 0.0 <= g <= 1.0
    ensures 0.0 <= a * b * f * g * 255.0 <= a * 255.0
  {
    TimesAtMostOne(a, b);
    TimesAtMostOne(a * b, f);
    TimesAtMostOne(a * b * f, g);
  }

  lemma FractionOfPi(x: real)
    requires 0.0 <= x <= Pi
    ensures 0.0 <= x / Pi <= 1.0
  {
    FractionAtMostOne(x, Pi);
  }

  lemma FractionAtMostOne(x: real, y: real)
    requires 0.0 < y && 0.0 <= x <= y
    ensures 0.0 <= x / y <= 1.0
  {
  }

  /** The colour of the hit point under `light`, given the hit distance. */
  function Shade(o: Object, ray: Ray, light: SceneLight, distance: real, ops: VectorOps): (c: Colors.Color)
    ensures light.intensity == 0.0 || ObjectAlbedo(o) == 0.0 ==> c == Colors.Black
  {
    var hit := At(ray, distance);
    var factor := LightFactor(SurfaceNormal(o, hit, ops), light, ops);
    var reflected := ObjectAlbedo(o) / Pi;
    var oc := ObjectColor(o);
    Colors.New(ShadeChannel(oc.red, light.color.red, factor, reflected),
               ShadeChannel(oc.green, light.color.green, factor, reflected),
               ShadeChannel(oc.blue, light.color.blue, factor, reflected))
  }

  /** `Object::calc_color`: `None` exactly when the ray misses the object;
      otherwise the shaded colour at the hit point. */
  function CalcColor(o: Object, ray: Ray, light: SceneLight, ops: VectorOps): (r: Option<Colors.Color>)
    ensures r.None? <==> IntersectDistance(o, ray, ops).None?
    ensures r.Some? ==> r.value == Shade(o, ray, light, IntersectDistance(o, ray, ops).value, ops)
  {
    match IntersectDistance(o, ray, ops)
    case None => None
    case Some(distance) => Some(Shade(o, ray, light, distance, ops))
  }

  /** A surface facing away from the light is shaded black. */
  lemma BackFacingIsDark(o: Object, ray: Ray, light: SceneLight, ops: VectorOps)
    requires CalcColor(o, ray, light, ops).Some?
    requires var hit := At(ray, IntersectDistance(o, ray, ops).value);
      Dot(SurfaceNormal(o, hit, ops), Neg(ops.normalize(light.direction))) <= 0.0
    ensures CalcColor(o, ray, light, ops) == Some(Colors.Black)
  {
  }

  /** With an albedo in [0, PI] and a light of non-negative intensity whose
      factor at the hit point is at most one, the shaded colour is no brighter,
      channel by channel, than the object's colour or the light's. */
  lemma ShadeDims(o: Object, ray: Ray, light: SceneLight, distance: real, ops: VectorOps)
    requires 0.0 <= ObjectAlbedo(o) <= Pi
    requires 0.0 <= light.intensity
    requires LightFactor(SurfaceNormal(o, At(ray, distance), ops), light, ops) <= 1.0
    ensures Colors.Below(Shade(o, ray, light, distance, ops), ObjectColor(o))
    ensures Colors.Below(Shade(o, ray, light, distance, ops), light.color)
  {
    var factor := LightFactor(SurfaceNormal(o, At(ray, distance), ops), light, ops);
    var reflected := ObjectAlbedo(o) / Pi;
    FractionOfPi(ObjectAlbedo(o));
    var oc := ObjectColor(o);
    ShadeChannelDims(oc.red, light.color.red, factor, reflected);
    ShadeChannelDims(oc.green, light.color.green, factor, reflected);
    ShadeChannelDims(oc.blue, light.color.blue, factor, reflected);
  }
}
