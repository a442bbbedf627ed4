/** src/utils.rs: another copy of the 8-bit colour, with the colour-by-colour
    and colour-by-scalar products and two conversions to a vector of channel
    fractions. */
module Utils {
  import opened Numeric
  import opened Vectors

  datatype Color = Color(red: U8, green: U8, blue: U8)

  const Black := Color(0, 0, 0)

  /** `Color::to_rgba`: channels in order, alpha fully opaque. */
  function ToRgba(c: Color): (p: Rgba)
    ensures p.a == 255
    ensures Color(p.r, p.g, p.b) == c
  {
    Rgba(c.red, c.green, c.blue, 255)
  }

  /** `Color::clamp`: `min(255)` on a u8 changes nothing, so the result is the
      colour itself (and clamping twice is clamping once). */
  function Clamp(c: Color): (r: Color)
    ensures r == c
  {
    Color(MinU8(c.red, 255), MinU8(c.green, 255), MinU8(c.blue, 255))
  }

  /** One channel as a fraction of full intensity: `channel as f32 / 255.0`. */
  function Fraction(channel: U8): (f: real)
    ensures 0.0 <= f <= 1.0
    ensures f * 255.0 == channel as real
    ensures channel == 0 <==> f == 0.0
    ensures channel == 255 <==> f == 1.0
  {
    channel as real / 255.0
  }

  /** `Color::to_perc`: each channel as a fraction in [0, 1]. */
  function ToPerc(c: Color): (v: Vector3)
    ensures 0.0 <= v.x <= 1.0 && 0.0 <= v.y <= 1.0 && 0.0 <= v.z <= 1.0
    ensures v.x * 255.0 == c.red as real && v.y * 255.0 == c.green as real && v.z * 255.0 == c.blue as real
  {
    Vector3(Fraction(c.red), Fraction(c.green), Fraction(c.blue))
  }

  /** `Color::to_vector`, a private twin of `to_perc`. */
  function ToVector(c: Color): (v: Vector3)
    ensures 0.0 <= v.x <= 1.0 && 0.0 <= v.y <= 1.0 && 0.0 <= v.z <= 1.0
    ensures v.x * 255.0 == c.red as real && v.y * 255.0 == c.green as real && v.z * 255.0 == c.blue as real
  {
    Vector3(c.red as real / 255.0, c.green as real / 255.0, c.blue as real / 255.0)
  }

  /** The two conversions agree on every colour. */
  lemma ToVectorIsToPerc(c: Color)
    ensures ToVector(c) == ToPerc(c)
  {
  }

  /** The fractions determine the colour: multiplying back by 255 recovers
      every channel, so distinct colours give distinct vectors. */
  lemma ToPercInjective(a: Color, b: Color)
    ensures ToPerc(a) == ToPerc(b) <==> a == b
  {
  }

  /** Black maps to the zero vector and white to the all-ones vector. */
  lemma ToPercEnds()
    ensures ToPerc(Black) == Vector3(0.0, 0.0, 0.0)
    ensures ToPerc(Color(255, 255, 255)) == Vector3(1.0, 1.0, 1.0)
  {
  }

  /** `Color * f32`: each channel scaled, truncated toward zero and saturated. */
  function Scale(c: Color, rhs: real): (r: Color)
    ensures rhs <= 0.0 ==> r == Black
  {
    ScaleChannelByNonPositive(c.red, rhs);
    ScaleChannelByNonPositive(c.green, rhs);
    ScaleChannelByNonPositive(c.blue, rhs);
    Color(ScaleChannel(c.red, rhs), ScaleChannel(c.green, rhs), ScaleChannel(c.blue, rhs))
  }

  lemma ScaleByOne(c: Color)
    ensures Scale(c, 1.0) == c
  {
    ScaleChannelByOne(c.red);
    ScaleChannelByOne(c.green);
    ScaleChannelByOne(c.blue);
  }

  /** `Color * Color`: the raw channel product capped at 255. */
  function Mul(a: Color, b: Color): (r: Color)
    ensures r.red == if a.red * b.red <= 255 then a.red * b.red else 255
    ensures r.green == if a.green * b.green <= 255 then a.green * b.green else 255
    ensures r.blue == if a.blue * b.blue <= 255 then a.blue * b.blue else 255
  {
    Color(MulChannel(a.red, b.red), MulChannel(a.green, b.green), MulChannel(a.blue, b.blue))
  }

  lemma MulCommutes(a: Color, b: Color)
    ensures Mul(a, b) == Mul(b, a)
  {
    MulChannelCommutes(a.red, b.red);
    MulChannelCommutes(a.green, b.green);
    MulChannelCommutes(a.blue, b.blue);
  }
}
