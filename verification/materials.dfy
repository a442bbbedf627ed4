/** src/material.rs: a material is a colouring (a flat colour or a texture),
    an albedo and a surface kind. The file carries its own copy of the 8-bit
    colour, with an unchecked addition and a conversion from the image crate's
    pixel type. */
module Materials {
  import opened Numeric
  import opened Vectors

  // ---------------------------------------------------------------- colour

  datatype Color = Color(red: U8, green: U8, blue: U8)

  const Black := Color(0, 0, 0)

  /** `Color::new`. */
  function New(red: U8, green: U8, blue: U8): (c: Color)
    ensures c.red == red && c.green == green && c.blue == blue
  {
    Color(red, green, blue)
  }

  /** `Color::to_rgba`: channels in order, alpha fully opaque. */
  function ToRgba(c: Color): (p: Rgba)
    ensures p.a == 255
    ensures FromRgba(p) == c
  {
    Rgba(c.red, c.green, c.blue, 255)
  }

  /** `From<Rgba<u8>> for Color`: takes channels 0, 1 and 2 and drops alpha. */
  function FromRgba(p: Rgba): (c: Color)
    ensures Rgba(c.red, c.green, c.blue, p.a) == p
  {
    Color(p.r, p.g, p.b)
  }

  /** Converting to a pixel and back is the identity on colours; converting a
      pixel to a colour and back restores it exactly when it was opaque. */
  lemma RgbaRoundTrip(c: Color, p: Rgba)
    ensures FromRgba(ToRgba(c)) == c
    ensures ToRgba(FromRgba(p)) == p <==> p.a == 255
  {
  }

  /** `Color::_clamp`: `min(255)` on a u8 changes nothing. */
  function Clamp(c: Color): (r: Color)
    ensures r == c
  {
    Color(MinU8(c.red, 255), MinU8(c.green, 255), MinU8(c.blue, 255))
  }

  /** One channel of `u8 + u8`. Rust checks this addition in debug builds and
      panics on overflow; the panic is `None`. It never saturates. */
  function AddChannel(a: U8, b: U8): (r: Option<U8>)
    ensures r.Some? <==> a + b <= 255
    ensures r.Some? ==> r.value == a + b
  {
    if a + b <= 0xFF then Some(a + b) else None
  }

  /** `Color + Color`: channel-wise u8 addition, defined only when no channel overflows. */
  function Add(a: Color, b: Color): (r: Option<Color>)
    ensures r.Some? <==> a.red + b.red <= 255 && a.green + b.green <= 255 && a.blue + b.blue <= 255
    ensures r.Some? ==> r.value == Color(a.red + b.red, a.green + b.green, a.blue + b.blue)
  {
    match (AddChannel(a.red, b.red), AddChannel(a.green, b.green), AddChannel(a.blue, b.blue))
    case (Some(red), Some(green), Some(blue)) => Some(Color(red, green, blue))
    case _ => None
  }

  lemma AddCommutes(a: Color, b: Color)
    ensures Add(a, b) == Add(b, a)
  {
  }

  lemma AddBlackIdentity(c: Color)
    ensures Add(c, Black) == Some(c) && Add(Black, c) == Some(c)
  {
  }

  /** A sum past 255 overflows rather than saturating at 255. */
  lemma AddDoesNotSaturate()
    ensures Add(Color(200, 0, 0), Color(100, 0, 0)) == None
  {
  }

  /** `Color * f32`: each channel scaled, truncated toward zero and saturated. */
  function Scale(c: Color, rhs: real): (r: Color)
    ensures rhs <= 0.0 ==> r == Black
  {
    ScaleChannelByNonPositive(c.red, rhs);
    ScaleChannelByNonPositive(c.green, rhs);
    ScaleChannelByNonPositive(c.blue, rhs);
    Color(ScaleChannel(c.red, rhs), ScaleChannel(c.green, rhs), ScaleChannel(c.blue, rhs))
  }

  lemma ScaleByOne(c: Color)
    ensures Scale(c, 1.0) == c
  {
    ScaleChannelByOne(c.red);
    ScaleChannelByOne(c.green);
    ScaleChannelByOne(c.blue);
  }

  /** A factor in [0, 1] never brightens any channel. */
  lemma ScaleDims(c: Color, rhs: real)
    requires 0.0 <= rhs <= 1.0
    ensures Scale(c, rhs).red <= c.red && Scale(c, rhs).green <= c.green && Scale(c, rhs).blue <= c.blue
  {
    ScaleChannelDims(c.red, rhs);
    ScaleChannelDims(c.green, rhs);
    ScaleChannelDims(c.blue, rhs);
  }

  /** `Color * Color`: the raw channel product capped at 255. */
  function Mul(a: Color, b: Color): (r: Color)
    ensures r.red == if a.red * b.red <= 255 then a.red * b.red else 255
    ensures r.green == if a.green * b.green <= 255 then a.green * b.green else 255
    ensures r.blue == if a.blue * b.blue <= 255 then a.blue * b.blue else 255
  {
    Color(MulChannel(a.red, b.red), MulChannel(a.green, b.green), MulChannel(a.blue, b.blue))
  }

  lemma MulCommutes(a: Color, b: Color)
    ensures Mul(a, b) == Mul(b, a)
  {
    MulChannelCommutes(a.red, b.red);
    MulChannelCommutes(a.green, b.green);
    MulChannelCommutes(a.blue, b.blue);
  }

  // --------------------------------------------------------------- texture

  /** A decoded image: `height` rows of `width` pixels each. Reading the file is
      not part of this model. */
  datatype Texture = Texture(width: U32, height: U32, pixels: seq<seq<Rgba>>)

  /** What `DynamicImage::get_pixel` needs to succeed for every in-range index:
      a non-empty, rectangular pixel grid of the stated size. */
  predicate ValidTexture(t: Texture) {
    && 0 < t.width && 0 < t.height
    && |t.pixels| == t.height
    && forall j :: 0 <= j < |t.pixels| ==> |t.pixels[j]| == t.width
  }

  /** `Texture::wrap`: `(value * limit) % limit`, moved up by `limit` when
      negative, then cast to u32. For a positive limit the index is always in
      range. */
  function Wrap(value: real, limit: real): (index: U32)
    ensures 0.0 < limit ==> (index as real) < limit
  {
    CastU32(WrapCoord(value, limit))
  }

  /** The coordinate `wrap` casts: the remainder, moved up by `limit` when it
      is negative. A NaN remainder (zero limit) fails the comparison and is
      cast as it is. */
  function WrapCoord(value: real, limit: real): (coord: Float)
    ensures 0.0 < limit ==> coord.Finite? && 0.0 <= coord.value < limit
  {
    var coord := FMod(value * limit, limit);
    if coord.Finite? && coord.value < 0.0 then Finite(coord.value + limit) else coord
  }

  /** For a positive limit, `wrap` casts `limit` times the fractional part of
      `value`: the cell of `[0, limit)` that the fraction falls in, which is
      tiling rather than clamping. */
  lemma WrapTiles(value: real, limit: real)
    requires 0.0 < limit
    ensures WrapCoord(value, limit) == Finite(limit * Frac(value))
  {
    FModOfMultiple(value, limit);
    ShiftedFraction(value, limit);
  }

  lemma FModOfMultiple(value: real, limit: real)
    requires 0.0 < limit
    ensures FMod(value * limit, limit) == Finite(limit * TruncFraction(value))
  {
    CancelFactor(value, limit);
  }

  /** Moving a negative truncated remainder up by `limit` gives `limit` times
      the floor-sense fractional part. */
  lemma ShiftedFraction(value: real, limit: real)
    requires 0.0 < limit
    ensures limit * TruncFraction(value) < 0.0 ==> limit * TruncFraction(value) + limit == limit * Frac(value)
    ensures 0.0 <= limit * TruncFraction(value) ==> limit * TruncFraction(value) == limit * Frac(value)
  {
    TruncFractionVsFrac(value);
    var f := TruncFraction(value);
    if 0.0 <= value {
    } else if f == 0.0 {
      assert limit * f == 0.0;
      assert limit * Frac(value) == 0.0;
    } else {
      StrictlyNegativeProduct(limit, f);
      assert limit * f + limit == limit * (f + 1.0);
    }
  }

  lemma StrictlyNegativeProduct(l: real, f: real)
    requires 0.0 < l && f < 0.0
    ensures l * f < 0.0
  {
    assert l * f < l * 0.0;
  }

  /** Shifting the coordinate by a whole number of tiles picks the same index. */
  lemma WrapPeriodic(value: real, k: int, limit: real)
    requires 0.0 < limit
    ensures Wrap(value + k as real, limit) == Wrap(value, limit)
  {
    WrapCoordPeriodic(value, k, limit);
  }

  /** Two instances of tiling, for any positive limit: 1.25 picks the index
      of 0.25, and -0.25 the index of 0.75. */
  lemma WrapExamples(limit: real)
    requires 0.0 < limit
    ensures Wrap(1.25, limit) == Wrap(0.25, limit)
    ensures Wrap(-0.25, limit) == Wrap(0.75, limit)
  {
    WrapPeriodic(0.25, 1, limit);
    WrapPeriodic(0.75, -1, limit);
  }

  lemma {:induction false} WrapCoordPeriodic(value: real, k: int, limit: real)
    requires 0.0 < limit
    ensures WrapCoord(value + k as real, limit) == WrapCoord(value, limit)
  {
    FracPeriodic(value, k);
    SameFractionSameCoord(value + k as real, value, limit);
  }

  /** Coordinates with the same fractional part wrap to the same place. */
  lemma SameFractionSameCoord(v: real, w: real, limit: real)
    requires 0.0 < limit && Frac(v) == Frac(w)
    ensures WrapCoord(v, limit) == WrapCoord(w, limit)
  {
    WrapTiles(v, limit);
    WrapTiles(w, limit);
    assert limit * Frac(v) == limit * Frac(w);
  }

  /** The tile cell a coordinate falls in: the whole part of `limit` times its
      floor-sense fractional part. */
  function TileIndex(value: real, limit: real): int {
    Trunc(limit * Frac(value))
  }

  /** Within the u32 range, `wrap` is the tile cell, and that cell is a valid
      index. */
  lemma WrapIsTileIndex(value: real, limit: real)
    requires 0.0 < limit <= 0x1_0000_0000 as real
    ensures 0 <= TileIndex(value, limit) && TileIndex(value, limit) as real < limit
    ensures Wrap(value, limit) == TileIndex(value, limit)
  {
    WrapTiles(value, limit);
    var f := Frac(value);
    assert limit * f < limit * 1.0;
  }

  /** `Texture::color_at`: wrap both coordinates and fetch that pixel. The result
      is always one of the image's pixels; `ColorAtTile` says which. */
  function ColorAt(t: Texture, coords: Vector2): (c: Color)
    requires ValidTexture(t)
    ensures exists i, j :: 0 <= j < t.height && 0 <= i < t.width && c == FromRgba(t.pixels[j][i])
  {
    var x := Wrap(coords.x, t.width as real);
    var y := Wrap(coords.y, t.height as real);
    FromRgba(t.pixels[y][x])
  }

  /** The sampled pixel is the one in the tile cell of `v` by the height (row)
      and of `u` by the width (column). */
  lemma ColorAtTile(t: Texture, coords: Vector2)
    requires ValidTexture(t)
    ensures 0 <= TileIndex(coords.y, t.height as real) < t.height
    ensures 0 <= TileIndex(coords.x, t.width as real) < t.width
    ensures ColorAt(t, coords) == FromRgba(t.pixels[TileIndex(coords.y, t.height as real)][TileIndex(coords.x, t.width as real)])
  {
    WrapIsTileIndex(coords.x, t.width as real);
    WrapIsTileIndex(coords.y, t.height as real);
  }

  /** Texture sampling repeats: UV coordinates that differ by whole numbers give
      the same colour, for every texture size. */
  lemma TextureTiles(t: Texture, u: real, v: real, i: int, j: int)
    requires ValidTexture(t)
    ensures ColorAt(t, Vector2(u + i as real, v + j as real)) == ColorAt(t, Vector2(u, v))
  {
    WrapPeriodic(u, i, t.width as real);
    WrapPeriodic(v, j, t.height as real);
  }

  /** The sampling at (1.25, -0.25) is the sampling at (0.25, 0.75). */
  lemma TextureTilesExample(t: Texture)
    requires ValidTexture(t)
    ensures ColorAt(t, Vector2(1.25, -0.25)) == ColorAt(t, Vector2(0.25, 0.75))
  {
    TextureTiles(t, 0.25, 0.75, 1, -1);
  }

  // -------------------------------------------------------------- material

  /** `Coloring::Color` and `Coloring::Texture`. */
  datatype Coloring = Flat(color: Color) | Textured(texture: Texture)

  /** The reflective kind carries its reflectivity; the refractive kind is an
      unimplemented placeholder in the source. */
  datatype SurfaceKind = Diffuse | Reflective(reflectivity: real) | Refractive

  datatype Material = Material(coloring: Coloring, albedo: real, surfaceKind: SurfaceKind)

  predicate ValidColoring(c: Coloring) {
    c.Textured? ==> ValidTexture(c.texture)
  }

  /** `Material::new`. */
  function NewMaterial(coloring: Coloring, albedo: real, surfaceKind: SurfaceKind): (m: Material)
    ensures m.coloring == coloring && m.albedo == albedo && m.surfaceKind == surfaceKind
  {
    Material(coloring, albedo, surfaceKind)
  }

  /** `Material::color`: a flat colour whatever the coordinates, or the texture
      sampled at them. */
  function MaterialColor(m: Material, coords: Vector2): (c: Color)
    requires ValidColoring(m.coloring)
    ensures m.coloring.Flat? ==> c == m.coloring.color
    ensures m.coloring.Textured? ==> c == ColorAt(m.coloring.texture, coords)
  {
    match m.coloring
    case Flat(color) => color
    case Textured(texture) => ColorAt(texture, coords)
  }

  /** A flat material gives the same colour at every pair of coordinates. */
  lemma FlatIgnoresCoords(m: Material, p: Vector2, q: Vector2)
    requires m.coloring.Flat?
    ensures MaterialColor(m, p) == MaterialColor(m, q)
  {
  }
}
