# Software rasterizer: a verified model

This project models the core of a small software renderer. The core is the
`Renderer` class, a framebuffer and z-buffer rasterizer. The project also
models its two value types, `Matrix4x4` and `Vector3D`.

A `Renderer` owns three things:

- a width and a height;
- a row-major ARGB32 colour buffer (`0xAARRGGBB`, alpha fixed at `0xFF`);
- a float depth buffer of the same size.

The class offers colour packing with a brightness factor, whole-buffer clears
of colour and depth, and a bounds-checked, depth-tested `setPixel`. It also
offers `drawTriangle`, which fills a bounding box using barycentric weights,
interpolates depth linearly, and writes a pixel only when its depth passes a
strict `z < zbuffer[idx]` test.

Modules, one per concern:

- `Vectors` (`vector3d.dfy`): `Vector3D` arithmetic over reals.
- `Matrices` (`matrix4x4.dfy`): 4x4 homogeneous matrices.
  - The matrix is a value, as in the C++ struct.
  - `identity` and `operator*` are methods with loops, as in the source.
  - The other builders are functions.
- `Colors` (`color.dfy`): `packColor` over `bv32`, with `bv8` channels.
- `Triangles` (`triangle.dfy`): the geometry of `drawTriangle`.
  - It covers the clipped box, the twice-signed-area denominator, the integer
    edge values, the weights and the interpolated depth.
  - The weights are real-valued, computed with the source's formulas.
  - Lemmas tie the fill test to integer edge signs.
- `Frames` (`framebuffer.dfy`): what each operation does, as pure functions.
  - The state of a renderer is a `Frame` value: a colour sequence and a depth
    sequence.
  - Lemmas state what the source promises about each operation.
- `Rendering` (`renderer.dfy`): the `Renderer` class.
  - The colour buffer is an `array<Color>` and the depth buffer an `array<real>`.
  - `Clear`, `ClearZ` and `DrawTriangle` update those arrays in place with the
    source's loops; `SetPixel` is a single guarded write.
  - The constructor fills the depth array with an array initializer where the
    source resizes a `std::vector`.
  - Each method is proved to leave the arrays equal to the matching `Frames`
    function of the old state.

Floats are modelled as mathematical reals. `std::sqrt` is a function parameter
that must satisfy `IsSqrt`, and the rotations take the cosine and sine as
inputs.

## Model

| member | source | states |
|---|---|---|
| Vectors.Sub | src/vector3D.cpp:12-14 | componentwise difference; adding b back to a - b gives a |
| Vectors.AddThenSub | src/vector3D.cpp:8-14 | (a + b) - b == a |
| Vectors.AddCommutes | src/vector3D.cpp:8-10 | a + b == b + a |
| Vectors.OriginIsNeutral | src/vector3D.cpp:4-18 | the default vector (0,0,0) is neutral for +, v - v is (0,0,0), v * 0 is (0,0,0) |
| Vectors.Div | src/vector3D.cpp:20-22 | componentwise division by a non-zero scalar; multiplying back by the scalar gives the vector |
| Vectors.DivUndoesScale | src/vector3D.cpp:16-22 | (v * s) / s == v for s != 0 |
| Vectors.DotCommutes | src/vector3D.cpp:34-36 | dot(a, b) == dot(b, a) |
| Vectors.DotSelfNonNegative | src/vector3D.cpp:34-36 | dot(v, v) >= 0 |
| Vectors.DotSelfPositive | src/vector3D.cpp:34-36 | dot(v, v) > 0 for every v other than (0,0,0) |
| Vectors.Magnitude | src/vector3D.cpp:24-26 | non-negative, its square is dot(v, v), and it is positive for every non-zero v |
| Vectors.Normalize | src/vector3D.cpp:28-32 | (0,0,0) when the magnitude is 0 (only for the zero vector); otherwise a vector that, scaled by the magnitude, gives v back |
| Vectors.NormalizeIsUnit | src/vector3D.cpp:24-32 | a normalized non-zero vector has magnitude exactly 1 |
| Vectors.Cross | src/vector3D.cpp:38-44 | a x b is orthogonal to a and to b |
| Vectors.CrossAntiCommutes | src/vector3D.cpp:38-44 | a x b == -(b x a) |
| Vectors.CrossSelfIsOrigin | src/vector3D.cpp:38-44 | a x a == (0,0,0) |
| Matrices.Zero | src/matrix4x4.cpp:5-7 | the default matrix has all 16 entries zero |
| Matrices.IdentityMatrix | src/matrix4x4.cpp:9-15 | 1 on the diagonal, 0 elsewhere |
| Matrices.Identity | src/matrix4x4.cpp:9-15 | the diagonal-setting loop over a zero matrix returns exactly the identity |
| Matrices.RotationX | src/matrix4x4.cpp:17-26 | c, -s / s, c in rows and columns 1-2; identity everywhere else |
| Matrices.RotationY | src/matrix4x4.cpp:28-37 | m[0][0] = c, m[0][2] = s, m[2][0] = -s, m[2][2] = c; identity everywhere else |
| Matrices.RotationZ | src/matrix4x4.cpp:39-48 | c, -s / s, c in rows and columns 0-1; identity everywhere else |
| Matrices.Translation | src/matrix4x4.cpp:50-56 | the offset in m[0..2][3]; identity everywhere else |
| Matrices.Multiply | src/matrix4x4.cpp:58-69 | the triple loop that accumulates into result[i][j] returns the matrix product |
| Matrices.MulEntry | src/matrix4x4.cpp:58-69 | entry (i, j) of the product is the sum over k of a[i][k] * b[k][j] |
| Matrices.IdentityLeftUnit | src/matrix4x4.cpp:58-69 | identity * a == a |
| Matrices.IdentityRightUnit | src/matrix4x4.cpp:58-69 | a * identity == a |
| Matrices.MulPreservesAffine | src/matrix4x4.cpp:58-69 | the product of two matrices with last row (0,0,0,1) has last row (0,0,0,1) |
| Matrices.Transform | src/matrix4x4.cpp:71-80 | for w != 0 the result times w is the homogeneous product; for w == 0 the homogeneous product is returned undivided |
| Matrices.TransformAffine | src/matrix4x4.cpp:71-80 | for last row (0,0,0,1), w is 1 and transform is the plain affine product |
| Matrices.TranslationMoves | src/matrix4x4.cpp:50-56 | transform by translation(x, y, z) maps v to v + (x, y, z) |
| Matrices.RotationXAction | src/matrix4x4.cpp:17-26 | rotationX keeps the x component and rotates (y, z) by (c, s) |
| Matrices.RotationYAction | src/matrix4x4.cpp:28-37 | rotationY keeps the y component and rotates (x, z) by (c, s), with the sign convention of the source |
| Matrices.RotationZAction | src/matrix4x4.cpp:39-48 | rotationZ keeps the z component and rotates (x, y) by (c, s) |
| Colors.Round | src/renderer.cpp:9 | std::round: within 1/2 of its argument, with halfway cases going away from zero |
| Colors.RoundInteger | src/renderer.cpp:9 | rounding an integer gives that integer |
| Colors.Clamp | src/renderer.cpp:9-11 | the result is in [0, 255]: the value itself inside, 0 below, 255 above |
| Colors.Level | src/renderer.cpp:9-11 | a scaled, rounded and clamped channel is in [0, 255] |
| Colors.PackColor | src/renderer.cpp:8-16 | alpha byte 0xFF; bits 16-23, 8-15 and 0-7 hold the scaled, rounded and clamped r, g and b |
| Colors.ArgbOfBytes | src/renderer.cpp:12-15 | packing the four decoded bytes of a colour gives back that colour |
| Colors.BytesOfArgb | src/renderer.cpp:12-15 | decoding a packed colour gives back its four bytes |
| Colors.ScaledFullBrightness | src/renderer.cpp:9-11 | at brightness 1 a channel is kept exactly |
| Colors.PackColorFullBrightness | src/renderer.cpp:8-16 | at brightness 1 the colour is 0xFF << 24, r << 16, g << 8 and b or-ed together, and r, g, b decode back exactly |
| Colors.PackBlack | src/renderer.cpp:21 | clear(0, 0, 0) writes 0xFF000000 |
| Colors.DimmingNeverBrightens | src/renderer.cpp:9-11 | a brightness in [0, 1] never raises a channel |
| Colors.SaturatedChannel | src/renderer.cpp:9-11 | a channel times brightness at or beyond 255 packs as 255 |
| Triangles.Min3 | src/renderer.cpp:53 | std::min of three: a lower bound that equals one of them |
| Triangles.Max3 | src/renderer.cpp:54 | std::max of three: an upper bound that equals one of them |
| Triangles.InBoxBounds | src/renderer.cpp:53-56 | a pixel of the clipped box is on screen and within the vertices' extremes |
| Triangles.DegenerateIffZeroArea | src/renderer.cpp:59-60 | the 1e-6 test on the integer denominator skips exactly the zero-area triangles |
| Triangles.Edge2IsEdge | src/renderer.cpp:64-66 | denom - e0 - e1 is the edge value of (v0, v1, p) |
| Triangles.W2IsQuotient | src/renderer.cpp:64-66 | w2 = 1 - w0 - w1 equals e2 / denom |
| Triangles.InsideIffEdgeSigns | src/renderer.cpp:64-67 | all three weights are >= 0 if and only if each integer edge value times denom is >= 0 |
| Triangles.DepthOfWeights | src/renderer.cpp:68 | the x loop's local weights give `Triangles.Depth`; what that depth satisfies is stated by `VerticesInterpolate` and `SwapCovers` |
| Triangles.VerticesInterpolate | src/renderer.cpp:64-68 | each vertex of a non-degenerate triangle passes the fill test and gets its own depth |
| Triangles.SwapWeights | src/renderer.cpp:64-66 | exchanging v1 and v2 keeps w0 and exchanges w1 and w2 |
| Triangles.RotateWeights | src/renderer.cpp:64-66 | starting from the next vertex shifts the weights by one |
| Triangles.SwapCovers | src/renderer.cpp:53-68 | the opposite winding covers the same pixels with the same depths |
| Triangles.RotateCovers | src/renderer.cpp:53-68 | a rotated vertex order covers the same pixels with the same depths |
| Triangles.ReverseCovers | src/renderer.cpp:53-68 | the reversed vertex order covers the same pixels with the same depths |
| Triangles.EdgeValuesFitInt32 | src/renderer.cpp:59-65 | within the coordinate bound, denom, the edge values and every product forming them fit in a 32-bit int |
| Frames.CellOfPixel | src/renderer.cpp:38 | pixel (x, y) of the screen is cell y * width + x, in range, and that cell maps back to (x, y) |
| Frames.PixelOfCell | include/Renderer.h:37 | each cell of the row-major buffer is one pixel of the screen |
| Frames.Initial | src/renderer.cpp:18-22 | after construction: width * height cells, all 0xFF000000, all depths 1e9 |
| Frames.Cleared | src/renderer.cpp:27-30 | every colour cell takes the colour; depths are kept |
| Frames.ClearedZ | src/renderer.cpp:32-34 | every depth cell becomes 1e9; colours are kept |
| Frames.DepthWrite | src/renderer.cpp:39-42 | other cells are kept; the stored depth never increases and ends at most z |
| Frames.SetPixelSpec | src/renderer.cpp:36-43 | setPixel keeps both buffers at width * height cells |
| Frames.SetPixelOffScreen | src/renderer.cpp:37 | off-screen coordinates change neither buffer |
| Frames.SetPixelOnScreen | src/renderer.cpp:38-42 | on screen, only cell y * width + x can change; it takes z and packColor(r, g, b, 1) exactly when z is strictly closer, and otherwise nothing changes |
| Frames.DepthWritesCommute | src/renderer.cpp:39-42 | two depth-tested writes to different cells, or with different depths, commute |
| Frames.CloserWriteWins | src/renderer.cpp:39-42 | of two writes to one cell, the closer one's colour and depth survive in either order |
| Frames.EqualDepthKeepsEarlier | src/renderer.cpp:39 | on equal depths the strict test keeps the earlier write |
| Frames.ShadeCell | src/renderer.cpp:67-73 | one pixel of the box keeps both buffers at width * height cells |
| Frames.DrawTriangleSpec | src/renderer.cpp:46-77 | drawTriangle keeps both buffers at width * height cells |
| Frames.DrawCell | src/renderer.cpp:62-73 | a cell takes the colour and the interpolated depth if the triangle covers it and the depth is strictly closer; otherwise it is kept |
| Frames.DegenerateTriangleChangesNothing | src/renderer.cpp:59-60 | a triangle with denom == 0 (collinear or coincident vertices) changes nothing |
| Frames.SkippedTriangleChangesNothing | src/renderer.cpp:60 | a triangle the 1e-6 test rejects changes nothing |
| Frames.OutsideBoxUnchanged | src/renderer.cpp:53-63 | every pixel outside the clipped bounding box keeps its colour and depth |
| Frames.OutsideBoxCells | src/renderer.cpp:53-63 | every cell whose pixel is outside the clipped bounding box is kept |
| Frames.DrawDepthNeverIncreases | src/renderer.cpp:70-71 | drawTriangle never raises a stored depth |
| Frames.DrawTriangleWrites | src/renderer.cpp:59-73 | a pixel is written if and only if denom != 0, it is in the box, each integer edge value has the sign of denom, and its depth is strictly closer; it is then given the colour and the depth |
| Frames.SwapDrawsSame | src/renderer.cpp:46-77 | exchanging two vertices draws the same frame |
| Frames.RotateDrawsSame | src/renderer.cpp:46-77 | starting from another vertex draws the same frame |
| Frames.WindingIndependent | src/renderer.cpp:46-77 | clockwise and counter-clockwise vertex orders draw the same frame |
| Frames.SameHitsSameFrame | src/renderer.cpp:62-73 | two triangles that hit the same cells with the same depths draw the same frame |
| Frames.CloserTriangleWins | src/renderer.cpp:70-73 | where two triangles overlap, the closer one's colour and depth survive in either drawing order |
| Frames.DrawsCommute | src/renderer.cpp:70-73 | two triangles whose depths differ wherever both cover a pixel can be drawn in either order |
| Frames.ScanShade | src/renderer.cpp:63-73 | after one pixel of the box is shaded, the scan has moved one pixel on towards the drawn frame |
| Frames.ScanBoxStart | src/renderer.cpp:62 | the rows above the box are already in their final state |
| Frames.ScanRowStart | src/renderer.cpp:63 | the cells of a row left of the box are already in their final state |
| Frames.ScanRowEnd | src/renderer.cpp:63 | the cells of a row right of the box are already in their final state |
| Frames.ScanBoxEnd | src/renderer.cpp:62 | once the scan is past the box, the frame is the drawn frame |
| Frames.Step | include/Renderer.h:11-26 | every public operation keeps both buffers at width * height cells |
| Frames.Run | include/Renderer.h:11-26 | every sequence of operations keeps both buffers at width * height cells |
| Frames.DepthNeverIncreasesWithoutClearZ | src/renderer.cpp:39-42 | over any sequence of calls without clearZ, no stored depth increases |
| Frames.StepAttempt | src/renderer.cpp:39-42 | after one setPixel or drawTriangle, a cell's depth is at most the depth that call attempted there |
| Frames.StepReached | src/renderer.cpp:39-42 | after one call other than clearZ, a cell holds its old depth or the depth that call attempted there |
| Frames.DepthReached | src/renderer.cpp:70-73 | over any sequence of calls without clearZ, each cell's depth is its starting depth or one attempted there; with `DepthNeverIncreasesWithoutClearZ` and `DepthAtMostEveryAttempt`, the least of them |
| Frames.DepthAtMostEveryAttempt | src/renderer.cpp:70-73 | over any sequence of calls without clearZ, each cell's depth is at most every depth an on-screen setPixel or a covering drawTriangle attempted there |
| Rendering.Renderer.State | include/Renderer.h:35-37 | in a valid renderer both buffers have width * height cells |
| Rendering.Renderer.constructor | src/renderer.cpp:18-22 | allocates two fresh buffers of width * height cells and leaves the initial frame: opaque black, depth 1e9 |
| Rendering.Renderer.Clear | src/renderer.cpp:27-30 | every colour cell becomes 0xFF << 24, r << 16, g << 8 and b or-ed together; the depth buffer is unchanged |
| Rendering.Renderer.ClearZ | src/renderer.cpp:32-34 | every depth cell becomes 1e9; the colour buffer is unchanged |
| Rendering.Renderer.SetPixel | src/renderer.cpp:36-43 | the arrays become the setPixel frame of the old arrays; no depth increases |
| Rendering.Renderer.DrawTriangle | src/renderer.cpp:46-77 | the nested box loops leave the arrays equal to the drawTriangle frame of the old arrays; no depth increases |
| Rendering.Renderer.ShadePixel | src/renderer.cpp:64-73 | the body of the x loop computes the weights and depth as written and performs exactly the one-pixel shade |
| Rendering.Scenario | src/renderer.cpp:46-77 | fresh 4x4 renderer, clearZ, triangle (0,0), (3,0), (0,3) at z = 1 in (255, 0, 0) at brightness 1: pixel (1, 1) is 0xFFFF0000 and pixel (3, 3) stays 0xFF000000 |
| Rendering.CornerPixels | src/renderer.cpp:62-73 | in that scenario's triangle, cell 5 takes the colour and cell 15 is kept |
| Rendering.CornerInside | src/renderer.cpp:64-68 | pixel (1, 1) is covered with depth 1 |
| Rendering.CornerOutside | src/renderer.cpp:64-67 | pixel (3, 3) fails the fill test |

## Left out

- Floating point: depths, weights, brightness and all matrix and vector
  arithmetic are exact reals, so IEEE-754 rounding is not modelled. That
  includes the rounding of `float(denom)` and of the edge values once they pass
  2^24, and the order of the float operations in `1.0f - w0 - w1`.
  `Triangles.InsideIffEdgeSigns` and `Frames.WindingIndependent` hold over
  reals; in single precision the fill test can differ on pixels that lie on an
  edge. For the triangle (0,0), (3,0), (0,1) at pixel (1,0), where e2 is 0,
  `1.0f - 2/3f - 1/3f` rounds to -2^-25, so the pixel is not filled. In the
  reversed order (0,1), (3,0), (0,0), w0 is `0 / -3`, which is -0.0f and passes
  `>= 0`, so the pixel is filled. The model fills it in both orders.
- `std::sin`, `std::cos` and `std::sqrt`: the rotations take c and s as
  parameters. `Vectors.Magnitude` and `Vectors.Normalize` take any function that
  satisfies `IsSqrt`.
- `Vectors.Div`: requires a non-zero scalar. The source divides anyway; IEEE
  division by zero (infinities, NaN) has no counterpart over reals.
  `Normalize` only divides by a positive magnitude, so it does not need this.
- `Colors.Level`: does not model `int(std::round(...))` overflowing for a huge
  brightness, which is undefined behaviour in C++. It also does not model a
  NaN brightness.
- `Rendering.Renderer.constructor`: requires positive dimensions whose product
  fits in an `int`. The source does not check them. A negative or overflowing
  `width * height` has no meaningful behaviour there.
- `Rendering.Renderer.DrawTriangle`: requires every vertex coordinate to lie
  within plus or minus 10000. This bound is enough for the `int` products of
  lines 59 and 64-65 not to overflow (`Triangles.EdgeValuesFitInt32`); it is
  not the weakest such bound. Signed overflow is undefined behaviour in C++,
  and the model leaves the overflowing inputs out rather than giving them a
  meaning.
- `Rendering.Renderer.ShadePixel` is the body of the inner `for x` loop of
  `drawTriangle`, split out as a method of its own. `DrawTriangle` keeps the
  nested loops over the clipped box.
- The brightness is not clamped to [0, 1]. Only the scaled channels are
  clamped, which is what the code does. A description that says the brightness
  is a factor in [0, 1] is a property of the callers, not of `packColor`.
- The destructor (`delete[] buffer`) is left out: memory is managed by Dafny.
- `getBuffer` is left out. Its byte view of the colour buffer is a
  reinterpretation of the same memory, and the bit layout is stated by
  `Colors.ArgbOfBytes` and `Colors.BytesOfArgb`. `getWidth` and `getHeight`
  are the class's `width` and `height` constants.
- `src/main.cpp` and `src/main_win.cpp` are not part of this model: the window
  systems, event loops, shape tables, trigonometric projection and timing.
  `main_win.cpp` calls a `drawLine` that the renderer does not declare or
  define, so no line rasterizer is modelled.
- The test programs `test_load.c` and `test_sdl.cpp` are not part of this
  model: DLL-loading and SDL smoke tests.
