/** Rust's fixed-width integers, the float-to-integer `as` casts and the few f32
    behaviours the renderer relies on, written out over Dafny's unbounded
    integers and reals. Rounding of f32 arithmetic is not modelled: an f32 is a
    real, an infinity or NaN. */
module Numeric {

  type U8 = x: int | 0 <= x < 0x100
  type U16 = x: int | 0 <= x < 0x1_0000
  type U32 = x: int | 0 <= x < 0x1_0000_0000

  datatype Option<+T> = None | Some(value: T)

  /** The image crate's `Rgba<u8>`: four channels, red, green, blue, alpha. */
  datatype Rgba = Rgba(r: U8, g: U8, b: U8, a: U8)

  /** An f32 as far as this model needs one. */
  datatype Float = Finite(value: real) | PosInf | NegInf | NaN

  /** IEEE division: a zero divisor gives an infinity with the dividend's sign,
      and 0/0 gives NaN (signed zeros are not modelled). */
  function Div(a: real, b: real): (q: Float)
    ensures b != 0.0 ==> q.Finite? && q.value * b == a
    ensures b == 0.0 ==> (q.PosInf? <==> a > 0.0) && (q.NegInf? <==> a < 0.0) && (q.NaN? <==> a == 0.0)
  {
    if b != 0.0 then Finite(a / b)
    else if a > 0.0 then PosInf
    else if a < 0.0 then NegInf
    else NaN
  }

  /** Rounding toward zero, the rounding every float-to-integer `as` cast performs. */
  function Trunc(x: real): (n: int)
    ensures 0.0 <= x ==> n as real <= x < n as real + 1.0
    ensures x < 0.0 ==> n as real - 1.0 < x <= n as real
    ensures x < 0.0 ==> n <= 0
  {
    if x >= 0.0 then x.Floor else -((-x).Floor)
  }

  /** f32's `%`: the remainder of a truncated division, `a - b * trunc(a / b)`,
      which carries the sign of the dividend and is smaller than the divisor in
      magnitude; a zero divisor gives NaN. It is written here as the divisor
      times the signed fractional part of the quotient, the same value. */
  function FMod(a: real, b: real): (m: Float)
    ensures b == 0.0 <==> m.NaN?
    ensures b != 0.0 ==> m.Finite? && IsInteger((a - m.value) / b)
    ensures b != 0.0 && a >= 0.0 ==> m.Finite? && 0.0 <= m.value < Abs(b)
    ensures b != 0.0 && a < 0.0 ==> m.Finite? && -Abs(b) < m.value <= 0.0
  {
    if b == 0.0 then NaN
    else
      var f := TruncFraction(a / b);
      RemainderBounds(a, b, f);
      RemainderMultiple(a, b, f);
      Finite(b * f)
  }

  /** The remainder takes the dividend's sign and ignores the divisor's. */
  lemma FModExamples()
    ensures FMod(7.0, 2.0) == Finite(1.0) && FMod(-7.0, 2.0) == Finite(-1.0)
    ensures FMod(7.0, -2.0) == Finite(1.0) && FMod(-7.0, -2.0) == Finite(-1.0)
  {
    assert Trunc(3.5) == 3 && Trunc(-3.5) == -3;
  }

  /** What truncation toward zero drops: the fractional part of `x`, with the sign of `x`. */
  function TruncFraction(x: real): (f: real)
    ensures 0.0 <= x ==> 0.0 <= f < 1.0
    ensures x < 0.0 ==> -1.0 < f <= 0.0
    ensures IsInteger(x - f)
  {
    var t := Trunc(x);
    assert (x - (x - t as real)) == t as real;
    x - t as real
  }

  predicate IsInteger(x: real) {
    x.Floor as real == x
  }

  /** The fractional part of `x` in the floor sense, always in [0, 1). */
  function Frac(x: real): (f: real)
    ensures 0.0 <= f < 1.0
    ensures IsInteger(x - f)
  {
    assert x - (x - x.Floor as real) == x.Floor as real;
    x - x.Floor as real
  }

  /** An integer shift does not change the floor-sense fractional part. */
  lemma FracPeriodic(x: real, k: int)
    ensures Frac(x + k as real) == Frac(x)
  {
    assert (x + k as real).Floor == x.Floor + k;
  }

  /** How the truncation-sense fraction relates to the floor-sense one: they
      agree for non-negative `x` and for integers, and otherwise differ by one. */
  lemma TruncFractionVsFrac(x: real)
    ensures 0.0 <= x ==> TruncFraction(x) == Frac(x)
    ensures TruncFraction(x) == 0.0 ==> Frac(x) == 0.0
    ensures TruncFraction(x) < 0.0 ==> Frac(x) == TruncFraction(x) + 1.0
  {
    var t := Trunc(x);
    if x < 0.0 && TruncFraction(x) < 0.0 {
      assert t as real - 1.0 < x < t as real;
      assert x.Floor == t - 1;
    } else if x < 0.0 {
      assert x == t as real;
      assert x.Floor == t;
    }
  }

  /** `(v * l) / l` is `v` again when `l` is not zero. */
  lemma CancelFactor(v: real, l: real)
    requires l != 0.0
    ensures (v * l) / l == v
  {
  }

  /** The remainder has the dividend's sign and is smaller than the divisor in magnitude. */
  lemma RemainderBounds(a: real, b: real, f: real)
    requires b != 0.0 && f == TruncFraction(a / b)
    ensures a >= 0.0 ==> 0.0 <= b * f < Abs(b)
    ensures a < 0.0 ==> -Abs(b) < b * f <= 0.0
  {
    var q := a / b;
    if b > 0.0 {
      QuotientSign(a, b);
      PositiveDivisorBounds(a, b, q, f);
    } else {
      NegatedQuotient(a, b);
      QuotientSign(-a, -b);
      NegativeDivisorBounds(a, b, q, f);
    }
  }

  lemma PositiveDivisorBounds(a: real, b: real, q: real, f: real)
    requires b > 0.0 && (a >= 0.0 <==> q >= 0.0)
    requires 0.0 <= q ==> 0.0 <= f < 1.0
    requires q < 0.0 ==> -1.0 < f <= 0.0
    ensures a >= 0.0 ==> 0.0 <= b * f < Abs(b)
    ensures a < 0.0 ==> -Abs(b) < b * f <= 0.0
  {
    if a >= 0.0 {
      FractionBelowOne(b, f);
    } else {
      FractionAboveMinusOne(b, f);
    }
  }

  lemma NegativeDivisorBounds(a: real, b: real, q: real, f: real)
    requires b < 0.0 && (-a >= 0.0 <==> q >= 0.0)
    requires 0.0 <= q ==> 0.0 <= f < 1.0
    requires q < 0.0 ==> -1.0 < f <= 0.0
    requires a == 0.0 ==> f == 0.0
    ensures a >= 0.0 ==> 0.0 <= b * f < Abs(b)
    ensures a < 0.0 ==> -Abs(b) < b * f <= 0.0
  {
    if a > 0.0 {
      NegativeTimesNonPositive(b, f);
    } else if a < 0.0 {
      NegativeTimesNonNegative(b, f);
    } else {
      assert b * f == 0.0 < Abs(b);
    }
  }

  lemma NegativeTimesNonPositive(b: real, f: real)
    requires b < 0.0 && -1.0 < f <= 0.0
    ensures 0.0 <= b * f < Abs(b)
  {
    assert b * f < b * -1.0;
  }

  lemma NegativeTimesNonNegative(b: real, f: real)
    requires b < 0.0 && 0.0 <= f < 1.0
    ensures -Abs(b) < b * f <= 0.0
  {
    assert b * 1.0 < b * f;
  }

  lemma NegatedQuotient(a: real, b: real)
    requires b != 0.0
    ensures -a / -b == a / b
  {
  }

  /** Removing the remainder leaves a whole multiple of the divisor. */
  lemma RemainderMultiple(a: real, b: real, f: real)
    requires b != 0.0 && IsInteger(a / b - f)
    ensures IsInteger((a - b * f) / b)
  {
    var q := a / b;
    assert a == b * q;
    assert a - b * f == b * (q - f);
    CancelFactor(q - f, b);
    assert (b * (q - f)) / b == q - f;
  }

  lemma QuotientSign(a: real, b: real)
    requires b > 0.0
    ensures a >= 0.0 <==> a / b >= 0.0
  {
    var q := a / b;
    assert a == b * q;
    if q < 0.0 { assert b * q < b * 0.0; }
    if q >= 0.0 { assert b * q >= b * 0.0; }
  }

  lemma FractionBelowOne(b: real, f: real)
    requires b > 0.0 && 0.0 <= f < 1.0
    ensures 0.0 <= b * f < b
  {
    assert b * f < b * 1.0;
  }

  lemma FractionAboveMinusOne(b: real, f: real)
    requires b > 0.0 && -1.0 < f <= 0.0
    ensures -b < b * f <= 0.0
  {
    assert b * -1.0 < b * f;
  }

  /** `x as u8` for a finite f32: truncate toward zero, then saturate into [0, 255]. */
  function CastU8(x: real): (n: U8)
    ensures x <= 0.0 ==> n == 0
    ensures 0.0 <= x < 256.0 ==> n as real <= x < n as real + 1.0
    ensures 256.0 <= x ==> n == 255
  {
    var t := Trunc(x);
    if t < 0 then 0 else if t > 0xFF then 0xFF else t
  }

  /** `x as u32` for an f32: truncate toward zero, then saturate into [0, 2^32 - 1];
      NaN becomes 0 and the infinities saturate. */
  function CastU32(x: Float): (n: U32)
    ensures x.Finite? && x.value <= 0.0 ==> n == 0
    ensures x.Finite? && 0.0 <= x.value < 0x1_0000_0000 as real ==> n as real <= x.value < n as real + 1.0
    ensures x.Finite? && 0x1_0000_0000 as real <= x.value ==> n == 0xFFFF_FFFF
    ensures x.NaN? || x.NegInf? ==> n == 0
    ensures x.PosInf? ==> n == 0xFFFF_FFFF
  {
    match x
    case Finite(v) =>
      var t := Trunc(v);
      if t < 0 then 0 else if t > 0xFFFF_FFFF then 0xFFFF_FFFF else t
    case PosInf => 0xFFFF_FFFF
    case NegInf => 0
    case NaN => 0
  }

  /** `std::f32::consts::PI`, the f32 nearest to pi, written out exactly. */
  const Pi: real := 3.1415927410125732421875

  /** f32::abs on a finite value. */
  function Abs(x: real): (a: real)
    ensures 0.0 <= a && (a == x || a == -x)
  {
    if x < 0.0 then -x else x
  }

  /** `u8::min`. */
  function MinU8(a: U8, b: U8): (m: U8)
    ensures m <= a && m <= b && (m == a || m == b)
  {
    if a <= b then a else b
  }

  /** f32::min and f32::max on finite operands. */
  function Min(a: real, b: real): (m: real)
    ensures m <= a && m <= b && (m == a || m == b)
  {
    if a <= b then a else b
  }

  function Max(a: real, b: real): (m: real)
    ensures a <= m && b <= m && (m == a || m == b)
  {
    if a >= b then a else b
  }

  /** One channel of colour-by-colour multiplication:
      `(a as u16 * b as u16).min(255) as u8`. The product is taken in 16 bits,
      where 255 * 255 = 65025 cannot overflow, and the final `as u8` keeps the
      low byte, which after the `min` is the whole value. */
  function MulChannel(a: U8, b: U8): (r: U8)
    ensures a * b <= 255 ==> r == a * b
    ensures 255 <= a * b ==> r == 255
    ensures r <= a * b
  {
    ProductFitsU16(a, b);
    var wide: U16 := a * b;
    var capped: U16 := if wide <= 255 then wide else 255;
    capped % 0x100
  }

  lemma ProductFitsU16(a: U8, b: U8)
    ensures 0 <= a * b <= 255 * 255 < 0x1_0000
  {
    assert a * b <= 255 * b <= 255 * 255;
  }

  lemma {:induction false} MulChannelCommutes(a: U8, b: U8)
    ensures MulChannel(a, b) == MulChannel(b, a)
  {
    assert a * b == b * a;
  }

  /** Raising either factor never lowers the channel product. */
  lemma {:induction false} MulChannelMonotone(a: U8, a': U8, b: U8)
    requires a <= a'
    ensures MulChannel(a, b) <= MulChannel(a', b)
    ensures MulChannel(b, a) <= MulChannel(b, a')
  {
    ProductMonotone(a, a', b);
    MulChannelCommutes(a, b);
    MulChannelCommutes(a', b);
  }

  lemma ProductMonotone(a: int, a': int, b: int)
    requires 0 <= a <= a' && 0 <= b
    ensures a * b <= a' * b
  {
    assert a' * b == a * b + (a' - a) * b;
  }

  /** One channel of colour-by-scalar multiplication: `(c as f32 * rhs) as u8`.
      The u8-to-f32 widening is exact; the product is truncated toward zero and
      saturated into [0, 255]. */
  function ScaleChannel(c: U8, rhs: real): (r: U8)
    ensures 0.0 <= c as real * rhs < 256.0 ==> r as real <= c as real * rhs < r as real + 1.0
    ensures c as real * rhs <= 0.0 ==> r == 0
    ensures 256.0 <= c as real * rhs ==> r == 255
  {
    CastU8(c as real * rhs)
  }

  /** Scaling by one leaves the channel unchanged. */
  lemma ScaleChannelByOne(c: U8)
    ensures ScaleChannel(c, 1.0) == c
  {
    assert c as real * 1.0 == c as real;
  }

  /** Scaling by zero, or by anything negative, gives a dark channel. */
  lemma ScaleChannelByNonPositive(c: U8, rhs: real)
    ensures rhs <= 0.0 ==> ScaleChannel(c, rhs) == 0
  {
    if rhs <= 0.0 {
      NonNegativeTimesNonPositive(c as real, rhs);
    }
  }

  /** A factor in [0, 1] never brightens a channel. */
  lemma ScaleChannelDims(c: U8, rhs: real)
    requires 0.0 <= rhs <= 1.0
    ensures ScaleChannel(c, rhs) <= c
  {
    ScaledCastAtMost(c as real, rhs);
  }

  lemma ScaledCastAtMost(x: real, rhs: real)
    requires 0.0 <= x && 0.0 <= rhs <= 1.0
    ensures CastU8(x * rhs) as real <= x
  {
    TimesAtMostOne(x, rhs);
    CastU8AtMost(x * rhs, x);
  }

  lemma CastU8AtMost(p: real, x: real)
    requires 0.0 <= p <= x
    ensures CastU8(p) as real <= x
  {
  }

  lemma NonNegativeTimesNonPositive(x: real, y: real)
    requires 0.0 <= x && y <= 0.0
    ensures x * y <= 0.0
  {
    assert x * y <= x * 0.0;
  }

  lemma TimesAtMostOne(x: real, y: real)
    requires 0.0 <= x && 0.0 <= y <= 1.0
    ensures 0.0 <= x * y <= x
  {
    assert x * y <= x * 1.0;
  }
}
