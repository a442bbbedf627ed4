# Ray tracer core in Dafny

This project models the exact logic at the core of a small Rust ray tracer:

- the 8-bit colour type in its three copies (`src/color.rs`,
  `src/material.rs`, `src/utils.rs`), with:
  - the colour-by-colour product, capped at 255 and taken in 16 bits;
  - the colour-by-scalar product, which truncates and saturates through `as u8`;
  - `clamp`, the pixel conversions and the unchecked addition;
- materials and textures (`src/material.rs`): a flat colour or a texture
  sample, and the `wrap` function that turns a UV coordinate into a pixel
  index by tiling;
- the ray–primitive intersection tests of spheres and planes, their normals,
  and the `None`/`Some` structure and shading of `calc_color`
  (`src/object.rs`);
- the four queries of point and directional lights (`src/light.rs`).

## Modules

- `Numeric` (`numeric.dfy`) gives shared definitions:
  - `u8`/`u16`/`u32` as subset types of `int`;
  - Rust's float-to-integer `as` casts: truncate toward zero, saturate, NaN to 0;
  - f32 `%` as a truncated remainder;
  - IEEE division by zero;
  - the per-channel arithmetic the three colour types share.
- `Vectors` (`vectors.dfy`) holds `Vector3`/`Vector2` and their componentwise
  operations, plus a `VectorOps` record. The record carries `f32::sqrt`,
  `normalize`, `norm` and `length`, whose exact values the model leaves
  abstract. Lemmas that need facts about the square root state them as
  preconditions: `SqrtNonNegative` or `SqrtExact`.
- `Colors` models `src/color.rs`, `Materials` models `src/material.rs`,
  `Utils` models `src/utils.rs`, `Lights` models `src/light.rs` and
  `Objects` models `src/object.rs`. Each file's own `Color` is modelled in
  its own module. `Objects` uses the ray and light structs of
  `src/render.rs:6-16`, as `src/object.rs:3` does, and not the light enum of
  `src/light.rs`.

f32 values are modelled as reals. `Numeric.Float` adds the infinities and NaN
where the code can produce them: `intensity` divides by zero at the light's
position, `distance` is infinite for a directional light, and `%` gives NaN
on a zero limit.

Two behaviours of the code are worth stating plainly:
- Colour addition in `src/material.rs` is plain `u8` `+`. It panics on
  overflow in debug builds and never saturates. `Materials.Add` returns `None`
  when any channel would overflow.
- The colour-by-colour product multiplies the raw channels and caps the
  result at 255, so `(1, 1, 1)` is its identity.

## Model

| member | source | states |
|---|---|---|
| `Numeric.Div` | src/light.rs:21 | For a non-zero divisor the quotient times the divisor gives back the dividend; for a zero divisor the result is +inf, -inf or NaN by the sign of the dividend |
| `Numeric.Trunc` | src/color.rs:35-37 | The integer that `as` casts round to: toward zero, within one of the value, never above a non-negative value or below a negative one |
| `Numeric.FMod` | src/material.rs:62 | f32 `%`: NaN exactly for a zero divisor; otherwise the dividend minus the remainder is a whole multiple of the divisor, and the remainder has the dividend's sign and is smaller than the divisor in magnitude, which pins it down |
| `Numeric.FModExamples` | src/material.rs:62 | 7 % 2 is 1 and -7 % 2 is -1, and the divisor's sign does not matter |
| `Numeric.CastU8` | src/color.rs:35-37 | `as u8`: 0 at or below zero, 255 from 256 up, otherwise the whole part of the value |
| `Numeric.CastU32` | src/material.rs:64-66 | `as u32`: 0 at or below zero and for NaN or -inf, 2^32-1 from 2^32 up and for +inf, otherwise the whole part |
| `Numeric.Abs` | src/object.rs:103 | `f32::abs`: non-negative and equal to the value or its negation |
| `Numeric.MinU8` | src/color.rs:23-25 | `u8::min`: one of the operands and at most both |
| `Numeric.Min` | src/object.rs:140 | `f32::min`: one of the operands and at most both |
| `Numeric.Max` | src/object.rs:43 | `f32::max`: one of the operands and at least both |
| `Numeric.MulChannel` | src/color.rs:47-49 | One channel of colour-by-colour: the product when it is at most 255, else 255, never above the product; the low byte of the capped 16-bit product loses nothing |
| `Numeric.ProductFitsU16` | src/color.rs:47-49 | A u8-by-u8 product is at most 255 * 255 and so fits in u16 |
| `Numeric.MulChannelCommutes` | src/color.rs:47-49 | The channel product is symmetric in its operands |
| `Numeric.MulChannelMonotone` | src/color.rs:47-49 | Raising either operand never lowers the channel product |
| `Numeric.ScaleChannel` | src/color.rs:35-37 | One channel of colour-by-scalar: the truncated product in range, 0 at or below zero, 255 from 256 up |
| `Numeric.ScaleChannelByOne` | src/color.rs:35-37 | Scaling a channel by 1 leaves it unchanged |
| `Numeric.ScaleChannelByNonPositive` | src/color.rs:35-37 | Scaling by zero or a negative factor gives 0 |
| `Numeric.ScaleChannelDims` | src/color.rs:35-37 | A factor in [0, 1] never brightens a channel |
| `Colors.New` | src/color.rs:13-15 | The three channels are stored unchanged |
| `Colors.ToRgba` | src/color.rs:17-19 | The pixel has alpha 255 and its red, green and blue are the colour's |
| `Colors.Clamp` | src/color.rs:21-27 | `clamp` is the identity on every colour, hence idempotent |
| `Colors.Scale` | src/color.rs:33-39 | Colour times a non-positive factor is black |
| `Colors.ScaleTruncates` | src/color.rs:33-39 | Each channel of colour times r is the truncation of channel * r saturated into [0, 255] |
| `Colors.ScaleByOne` | src/color.rs:33-39 | Colour times 1 is the colour |
| `Colors.ScaleDims` | src/color.rs:33-39 | A factor in [0, 1] never brightens any channel |
| `Colors.Mul` | src/color.rs:45-51 | Each channel of the product is min(a * b, 255) of the raw channels |
| `Colors.MulCommutes` | src/color.rs:45-51 | Colour-by-colour is commutative |
| `Colors.MulBlackAndOnes` | src/color.rs:45-51 | Black absorbs and (1, 1, 1) is the identity on both sides, so the product is not normalised |
| `Colors.MulMonotone` | src/color.rs:45-51 | Raising a channel of either operand never lowers that channel of the product |
| `Materials.New` | src/material.rs:79-81 | The three channels are stored unchanged |
| `Materials.ToRgba` | src/material.rs:83-85 | Alpha is 255 and converting the pixel back gives the colour |
| `Materials.FromRgba` | src/material.rs:96-104 | The colour takes channels 0, 1 and 2 of the pixel and drops only its alpha, so it inverts `ToRgba` |
| `Materials.RgbaRoundTrip` | src/material.rs:96-104 | Colour to pixel and back is the identity; pixel to colour and back restores the pixel exactly when its alpha is 255 |
| `Materials.Clamp` | src/material.rs:87-93 | `_clamp` is the identity on every colour |
| `Materials.AddChannel` | src/material.rs:111-113 | A channel sum is defined exactly when it is at most 255, and is then the sum |
| `Materials.Add` | src/material.rs:109-115 | Colour addition is defined exactly when no channel sum exceeds 255, and is then the channel-wise sum |
| `Materials.AddCommutes` | src/material.rs:109-115 | Colour addition is commutative, including where it overflows |
| `Materials.AddBlackIdentity` | src/material.rs:109-115 | Black is an identity on both sides and never overflows |
| `Materials.AddDoesNotSaturate` | src/material.rs:109-115 | 200 + 100 in a channel overflows rather than giving 255 |
| `Materials.Scale` | src/material.rs:121-127 | Colour times a non-positive factor is black |
| `Materials.ScaleByOne` | src/material.rs:121-127 | Colour times 1 is the colour |
| `Materials.ScaleDims` | src/material.rs:121-127 | A factor in [0, 1] never brightens any channel |
| `Materials.Mul` | src/material.rs:133-139 | Each channel of the product is min(a * b, 255) |
| `Materials.MulCommutes` | src/material.rs:133-139 | Colour-by-colour is commutative |
| `Materials.Wrap` | src/material.rs:61-68 | For a positive limit the index is below the limit |
| `Materials.WrapCoord` | src/material.rs:62-67 | For a positive limit the coordinate cast to an index lies in [0, limit) |
| `Materials.WrapTiles` | src/material.rs:61-68 | For a positive limit the coordinate is limit times the floor-sense fractional part of the value: tiling, not clamping |
| `Materials.WrapIsTileIndex` | src/material.rs:61-68 | For a limit within the u32 range the index is the whole part of limit times the value's fractional part, and that cell lies in [0, limit) |
| `Materials.WrapPeriodic` | src/material.rs:61-68 | Shifting the value by any integer gives the same index |
| `Materials.WrapExamples` | src/material.rs:61-68 | For every positive limit, 1.25 wraps to the index of 0.25 and -0.25 to the index of 0.75 |
| `Materials.WrapCoordPeriodic` | src/material.rs:62-67 | Shifting the value by any integer gives the same coordinate |
| `Materials.SameFractionSameCoord` | src/material.rs:62-67 | Values with the same fractional part wrap to the same coordinate |
| `Materials.ColorAt` | src/material.rs:54-59 | The sampled colour is the colour of some pixel of the image; `Materials.ColorAtTile` says which |
| `Materials.ColorAtTile` | src/material.rs:54-59 | The sampled colour is the pixel in row `TileIndex(v, height)` and column `TileIndex(u, width)`, both in range |
| `Materials.TextureTiles` | src/material.rs:54-59 | Texture lookup repeats with period 1 in both UV coordinates |
| `Materials.TextureTilesExample` | src/material.rs:54-59 | The sample at (1.25, -0.25) is the sample at (0.25, 0.75) |
| `Materials.NewMaterial` | src/material.rs:22-28 | Colouring, albedo and surface kind are stored unchanged |
| `Materials.MaterialColor` | src/material.rs:30-35 | A flat colouring gives its colour; a texture gives its sample at the coordinates |
| `Materials.FlatIgnoresCoords` | src/material.rs:30-32 | A flat material gives the same colour at every pair of coordinates |
| `Utils.ToRgba` | src/utils.rs:15-17 | Alpha is 255 and red, green and blue are the colour's |
| `Utils.Clamp` | src/utils.rs:19-25 | `clamp` is the identity on every colour |
| `Utils.Fraction` | src/utils.rs:37-39 | A channel fraction lies in [0, 1], times 255 gives the channel back, and is 0 or 1 exactly for channel 0 or 255 |
| `Utils.ToPerc` | src/utils.rs:35-41 | Each component lies in [0, 1] and times 255 gives back its channel |
| `Utils.ToVector` | src/utils.rs:27-33 | Each component lies in [0, 1] and times 255 gives back its channel |
| `Utils.ToVectorIsToPerc` | src/utils.rs:27-41 | `to_vector` and `to_perc` agree on every colour |
| `Utils.ToPercInjective` | src/utils.rs:35-41 | Two colours have the same fraction vector exactly when they are equal |
| `Utils.ToPercEnds` | src/utils.rs:35-41 | Black maps to (0, 0, 0) and white to (1, 1, 1) |
| `Utils.Scale` | src/utils.rs:47-53 | Colour times a non-positive factor, zero included, is black |
| `Utils.ScaleByOne` | src/utils.rs:47-53 | Colour times 1 is the colour |
| `Utils.Mul` | src/utils.rs:59-65 | Each channel of the product is min(a * b, 255), so never above 255 |
| `Utils.MulCommutes` | src/utils.rs:59-65 | Colour-by-colour is commutative |
| `Lights.LightColor` | src/light.rs:10-15 | The colour of whichever light it is |
| `Lights.Intensity` | src/light.rs:17-25 | Directional: the configured intensity. Point: a value that times 4 * PI * norm(position - p) gives the configured intensity, and no finite value when that is zero |
| `Lights.Direction` | src/light.rs:27-33 | The normalised offset to a point light, or the normalised reverse of a directional light's direction |
| `Lights.Distance` | src/light.rs:35-40 | The length of the offset to a point light; positive infinity for a directional light |
| `Lights.DirectionalIgnoresPoint` | src/light.rs:17-40 | A directional light gives the same intensity, direction and distance at every point, and the distance is infinite |
| `Lights.PointDependsOnOffset` | src/light.rs:19-37 | A point light sees the point only through the offset: equal offsets and intensities give equal intensity, direction and distance |
| `Lights.TranslationInvariant` | src/light.rs:17-40 | Moving the light and the point by the same offset changes no query |
| `Lights.IntensityLinear` | src/light.rs:19-21 | At a fixed point off the light, the intensity there is proportional to the configured intensity |
| `Lights.InverseSquare` | src/light.rs:19-21 | Where norm(position - q) is four times norm(position - p), the intensity at q is a quarter of that at p |
| `Objects.ObjectColor` | src/object.rs:14-19 | The colour of whichever primitive it is |
| `Objects.ObjectAlbedo` | src/object.rs:21-26 | The albedo of whichever primitive it is |
| `Objects.SurfaceNormal` | src/object.rs:28-33 | A sphere's normal is the normalised offset from its centre; a plane's is its negated normal |
| `Objects.PlaneNormalIgnoresHitPoint` | src/object.rs:31 | A plane's normal is the same at every hit point |
| `Objects.PlaneDistance` | src/object.rs:95-112 | No hit exactly when abs(normal . direction) is below the f32 value of 1e-6; otherwise the point at the reported distance lies on the plane |
| `Objects.PlaneHitOnPlane` | src/object.rs:99-110 | The point num / denom along the ray satisfies the plane equation |
| `Objects.PlaneDistanceUnique` | src/object.rs:99-110 | Any distance whose point lies on the plane is the reported one |
| `Objects.PlaneBehindRay` | src/object.rs:107-110 | A plane behind a ray that points away from it is still reported, at a negative distance |
| `Objects.SphereDistance` | src/object.rs:114-142 | No hit exactly when distance2 > radius2; otherwise one of adj - thickness and adj + thickness, and at most both |
| `Objects.SphereNearRoot` | src/object.rs:129-141 | With a non-negative square root the result is adj - thickness, and at most adj |
| `Objects.SphereMissIsMiss` | src/object.rs:117-125 | On a miss with a unit direction, every point of the ray's line is farther from the centre than the radius |
| `Objects.SquaredOffsetOnUnitRay` | src/object.rs:117-119 | For a unit direction, the squared distance of the point t along the ray from the centre is (t - adj)^2 + distance2 |
| `Objects.SphereHitOnSurface` | src/object.rs:117-141 | With an exact square root and a unit direction, the reported point is on the sphere |
| `Objects.SphereBehindRay` | src/object.rs:135-141 | When both crossings lie behind the origin the sphere is still reported, at a negative distance |
| `Objects.IntersectDistance` | src/object.rs:87-92 | The object's test is the active primitive's own test |
| `Objects.LightFactor` | src/object.rs:40-43 | The landing light is non-negative for a non-negative intensity, and zero for a surface facing away or a zero intensity |
| `Objects.ShadeChannel` | src/object.rs:48-58 | A shaded channel is dark when the light factor or the reflected share is zero |
| `Objects.ShadeChannelDims` | src/object.rs:48-58 | With factor and reflected share in [0, 1], a shaded channel is at most the object's and the light's channel |
| `Objects.ChannelFraction` | src/object.rs:49-51 | A channel fraction lies in [0, 1] and times 255 gives the channel back |
| `Objects.Shade` | src/object.rs:38-59 | A zero intensity or a zero albedo shades the hit point black |
| `Objects.ShadeDims` | src/object.rs:43-58 | With albedo in [0, PI] and a light factor in [0, 1], the shaded colour is no brighter than the object's or the light's |
| `Objects.CalcColor` | src/object.rs:36-63 | `None` exactly when the ray misses; otherwise the shaded colour at the reported distance |
| `Objects.BackFacingIsDark` | src/object.rs:40-45 | A hit surface facing away from the light is shaded black |

## Left out

- `src/render.rs`, `src/main.rs` and `src/point.rs` are not part of this
  model: image allocation, `put_pixel`, PNG output and camera-ray
  trigonometry. Only the `Ray` and `Light` structs of `src/render.rs` are
  used, as data.
- `src/vector.rs` is not part of this model. `f32::sqrt` (src/object.rs:129)
  and `vector.rs`'s `normalize`, `norm` and `length` are passed in as the
  functions of a `VectorOps` value.
  The componentwise operations are written out over reals.
- f32 rounding is not modelled: every f32 is an exact real.
  - NaN or infinite inputs, and signed zero, are not modelled as inputs.
  - The infinities and NaN appear only where the model's own operations
    produce them.
- Materials.Wrap: the index is below the limit over reals. In f32, `coord + limit`
  can round up to exactly `limit`, which this model cannot express.
- Materials.ColorAt: requires a non-empty, rectangular pixel grid. The image
  crate's `get_pixel` panics on an out-of-range index, and a zero-sized
  image leaves no in-range index. The pixel fetch is a read of the grid
  (row `y`, column `x`). `Texture::new` (src/material.rs:50-52) only wraps
  the image and is not modelled separately.
- Materials.Add: models only the debug build, where overflow is an error
  (`None`). The release build's wrap-around sum is not modelled.
- Objects.ShadeChannel: states only when a channel is dark. The shaded
  values are float products cast with `as u8`, computed exactly over reals.
  Their rounding is not modelled.
- Lights.Intensity: at the light's own position it states only that the
  result is not finite. The signs come from `Numeric.Div`.
- `SurfaceKind::_Refractive` is a constructor with no behaviour. No code
  reflects, refracts or recurses.
- The geometric lemmas assume facts about the abstract operations, as
  preconditions:
  - a non-negative square root (`SqrtNonNegative`);
  - an exact square root (`SqrtExact`);
  - a unit ray direction.

  The source assumes these implicitly.
