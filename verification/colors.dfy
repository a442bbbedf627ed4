/** The 8-bit colour of src/color.rs: three u8 channels with an implicit full
    alpha, a colour-by-colour product that caps each channel at 255, and a
    colour-by-scalar product that truncates and saturates. */
module Colors {
  import opened Numeric

  datatype Color = Color(red: U8, green: U8, blue: U8)

  const Black := Color(0, 0, 0)

  /** `Color::new`. */
  function New(red: U8, green: U8, blue: U8): (c: Color)
    ensures c.red == red && c.green == green && c.blue == blue
  {
    Color(red, green, blue)
  }

  /** `Color::to_rgba`: the three channels in order and an opaque alpha. */
  function ToRgba(c: Color): (p: Rgba)
    ensures p.a == 255
    ensures Color(p.r, p.g, p.b) == c
  {
    Rgba(c.red, c.green, c.blue, 255)
  }

  /** `Color::clamp`. Every channel is taken through `min(255)`, which cannot
      change a u8, so the result is the colour itself. */
  function Clamp(c: Color): (r: Color)
    ensures r == c
  {
    Color(MinU8(c.red, 255), MinU8(c.green, 255), MinU8(c.blue, 255))
  }

  /** `Color * f32`: each channel scaled, truncated toward zero and saturated. */
  function Scale(c: Color, rhs: real): (r: Color)
    ensures rhs <= 0.0 ==> r == Black
  {
    ScaleChannelByNonPositive(c.red, rhs);
    ScaleChannelByNonPositive(c.green, rhs);
    ScaleChannelByNonPositive(c.blue, rhs);
    Color(ScaleChannel(c.red, rhs), ScaleChannel(c.green, rhs), ScaleChannel(c.blue, rhs))
  }

  /** Each channel of a scaled colour is the truncation of the exact product,
      saturated into [0, 255]. */
  lemma ScaleTruncates(c: Color, rhs: real)
    ensures ScaledChannelOk(c.red, rhs, Scale(c, rhs).red)
    ensures ScaledChannelOk(c.green, rhs, Scale(c, rhs).green)
    ensures ScaledChannelOk(c.blue, rhs, Scale(c, rhs).blue)
  {
  }

  /** `r` is what `(c as f32 * rhs) as u8` gives: below zero it is 0, above
      255 it is 255, and in between it is the whole part of the product. */
  predicate ScaledChannelOk(c: U8, rhs: real, r: U8) {
    && (c as real * rhs <= 0.0 ==> r == 0)
    && (0.0 <= c as real * rhs < 256.0 ==> r as real <= c as real * rhs < r as real + 1.0)
    && (256.0 <= c as real * rhs ==> r == 255)
  }

  /** Scaling by one is the identity. */
  lemma ScaleByOne(c: Color)
    ensures Scale(c, 1.0) == c
  {
    ScaleChannelByOne(c.red);
    ScaleChannelByOne(c.green);
    ScaleChannelByOne(c.blue);
  }

  /** A factor in [0, 1] never brightens any channel. */
  lemma ScaleDims(c: Color, rhs: real)
    requires 0.0 <= rhs <= 1.0
    ensures Scale(c, rhs).red <= c.red && Scale(c, rhs).green <= c.green && Scale(c, rhs).blue <= c.blue
  {
    ScaleChannelDims(c.red, rhs);
    ScaleChannelDims(c.green, rhs);
    ScaleChannelDims(c.blue, rhs);
  }

  /** `Color * Color`: the raw channel product capped at 255 (not a product of
      normalised values), computed in 16 bits so it cannot overflow. */
  function Mul(a: Color, b: Color): (r: Color)
    ensures r.red == if a.red * b.red <= 255 then a.red * b.red else 255
    ensures r.green == if a.green * b.green <= 255 then a.green * b.green else 255
    ensures r.blue == if a.blue * b.blue <= 255 then a.blue * b.blue else 255
  {
    Color(MulChannel(a.red, b.red), MulChannel(a.green, b.green), MulChannel(a.blue, b.blue))
  }

  lemma MulCommutes(a: Color, b: Color)
    ensures Mul(a, b) == Mul(b, a)
  {
    MulChannelCommutes(a.red, b.red);
    MulChannelCommutes(a.green, b.green);
    MulChannelCommutes(a.blue, b.blue);
  }

  /** Black absorbs; `(1, 1, 1)` is the identity, which shows the product is
      not normalised (a normalised product would need `(255, 255, 255)`). */
  lemma MulBlackAndOnes(c: Color)
    ensures Mul(c, Black) == Black && Mul(Black, c) == Black
    ensures Mul(c, Color(1, 1, 1)) == c && Mul(Color(1, 1, 1), c) == c
  {
  }

  /** Raising a channel of either operand never lowers that channel of the product. */
  lemma MulMonotone(a: Color, a': Color, b: Color)
    requires a.red <= a'.red && a.green <= a'.green && a.blue <= a'.blue
    ensures Below(Mul(a, b), Mul(a', b))
    ensures Below(Mul(b, a), Mul(b, a'))
  {
    MulChannelMonotone(a.red, a'.red, b.red);
    MulChannelMonotone(a.green, a'.green, b.green);
    MulChannelMonotone(a.blue, a'.blue, b.blue);
  }

  /** Channel-wise order on colours. */
  predicate Below(a: Color, b: Color) {
    a.red <= b.red && a.green <= b.green && a.blue <= b.blue
  }
}
