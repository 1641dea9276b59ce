# A verified model of a software rasterizer and a de Casteljau Bezier evaluator

This project models two pieces of the GAMES101 course assignments in Dafny.

1. The screen-space rasterizer of Assignment 2 (`rst::rasterizer`):
   - the colour and depth buffers, `get_index`, `set_pixel`, `clear` and the constructor (module `FrameBuffer`, file `frame_buffer.dfy`);
   - the 2D barycentric coordinates of `computeBarycentric2D`, the unused `insideTriangle`, and the viewport and depth remap of `draw` (module `Geometry`, file `geometry.dfy`);
   - `rasterize_triangle` (module `Rasterizer`, file `rasterizer.dfy`). It samples each pixel of the triangle's truncated bounding box at four sub-pixel points. It averages the depths and colours of the covered samples, then depth-tests and writes the pixel.
2. From Assignment 4:
   - `binomialCoefficient`, the multiply-then-divide loop (module `Binomial`, file `binomial.dfy`);
   - `recursive_bezier`, de Casteljau's reduction of a control polygon to one curve point (module `Bezier`, file `bezier.dfy`).

Modelling choices:
- Floats are reals. Depth is `Inf | Fin(z)`, so a cleared entry is +infinity.
- The buffers are flat sequences indexed by `Index`. Row 0 of a buffer is the top screen row.
- Each operation is a pure function over immutable buffers. The pixel loop is also a method, `Rasterizer.RasterizeTriangle`, proved equal to the whole-screen reference `Rasterizer.Drawn`.
- `static_cast<int>` is truncation toward zero (`Rasterizer.Trunc`).
- The pixel loop does not clip. `RasterizeTriangle` therefore requires the truncated bounding box to lie on the screen (`BoxOnScreen`).
- `Drawn` itself is defined for every well-formed triangle, on screen or not. Pixels off the screen do not exist in it.
- Integers in `Binomial` are unbounded.

Two behaviours one might expect of a supersampling rasterizer do not hold in this code. The model follows the code:
- A partly covered pixel is not blended with the background. The colour sum is divided by the number of covered samples, not by four. Every written pixel therefore gets exactly the triangle's flat colour (`Rasterizer.MeanColorIsFlat`).
- The loop bounds truncate the bounding box toward zero. They do not floor its minimum and ceil its maximum.

## Model

| member | source | states |
|---|---|---|
| FrameBuffer.IndexInRange | games101/Assignment2/code/rasterizer.cpp:213-216 | An on-screen pixel's index lies in [0, width*height), and `PixelOf` recovers the pixel from it |
| FrameBuffer.PixelOfInRange | games101/Assignment2/code/rasterizer.cpp:213-216 | Every buffer index is the index of the on-screen pixel `PixelOf` names, so `get_index` maps the grid onto the whole buffer |
| FrameBuffer.IndexInjective | games101/Assignment2/code/rasterizer.cpp:213-216 | Two on-screen pixels with the same index are the same pixel |
| FrameBuffer.IndexCorners | games101/Assignment2/code/rasterizer.cpp:213-216 | (0,0) maps to (height-1)*width, (0,height-1) maps to 0, and (width-1,0) maps to the last entry |
| FrameBuffer.Create | games101/Assignment2/code/rasterizer.cpp:207-211 | The constructor sizes both buffers to width*height, and every depth entry starts at 0 |
| FrameBuffer.CreatedRejectsUntilCleared | games101/Assignment2/code/rasterizer.cpp:207-211 | Before a depth clear, no fragment at a non-negative depth passes the depth test against a fresh buffer |
| FrameBuffer.SetPixel | games101/Assignment2/code/rasterizer.cpp:218-224 | `set_pixel` writes the colour at `get_index(x, y)`; every other frame entry and the whole depth buffer are unchanged |
| FrameBuffer.Clear | games101/Assignment2/code/rasterizer.cpp:195-205 | The colour flag blackens every frame entry, the depth flag sets every depth to +infinity, and each flag leaves the other buffer alone |
| FrameBuffer.ClearIdempotent | games101/Assignment2/code/rasterizer.cpp:195-205 | Clearing twice with the same flags equals clearing once |
| FrameBuffer.ClearFlagsCombine | games101/Assignment2/code/rasterizer.cpp:195-205 | Clearing colour then depth, in either order, equals clearing both at once |
| Geometry.DenominatorsAgree | games101/Assignment2/code/rasterizer.cpp:48-50 | The three denominators of the barycentric formula are all the triangle's signed double area |
| Geometry.Barycentric | games101/Assignment2/code/rasterizer.cpp:46-52 | For a non-degenerate triangle the coordinates sum to exactly 1 and recombine the vertices into the query point |
| Geometry.BarycentricUnique | games101/Assignment2/code/rasterizer.cpp:46-52 | Any affine weights that reproduce the point are the computed coordinates |
| Geometry.BarycentricAtVertices | games101/Assignment2/code/rasterizer.cpp:46-52 | At vertex i the coordinates are the i-th unit triple |
| Geometry.CoveredIffConvex | games101/Assignment2/code/rasterizer.cpp:151 | The all-non-negative test passes exactly when the point is a convex combination of the vertices |
| Geometry.CoveredInBoundingBox | games101/Assignment2/code/rasterizer.cpp:124-127 | A covered point lies within the min/max vertex coordinates that bound the pixel loop |
| Geometry.InsideTriangleAsWritten | games101/Assignment2/code/rasterizer.cpp:54-65 | `insideTriangle` as written returns true for every pixel of every non-degenerate triangle |
| Geometry.InsideTriangleAsWrittenAcceptsOutside | games101/Assignment2/code/rasterizer.cpp:54-65 | A pixel outside the triangle is accepted by `insideTriangle` although the live coverage test rejects it |
| Geometry.InsideTriangleAsWrittenWitness | games101/Assignment2/code/rasterizer.cpp:54-65 | Pixel (5,5) against the unit right triangle at the origin has weights (-9,5,5), so it is outside |
| Geometry.Viewport | games101/Assignment2/code/rasterizer.cpp:90-95 | NDC x and y in [-1,1] land in [0,width] and [0,height], and z in [-1,1] lands in [0.1,50] |
| Geometry.ViewportRoundTrip | games101/Assignment2/code/rasterizer.cpp:90-95 | On a non-empty screen the viewport map is a bijection; its inverse undoes it in both directions |
| Geometry.ViewportCorners | games101/Assignment2/code/rasterizer.cpp:73-74 | With f1=(50-0.1)/2 and f2=(50+0.1)/2, z=-1 maps to 0.1 and z=1 maps to 50; the NDC corners map to the screen corners |
| Geometry.ViewportDepthMonotone | games101/Assignment2/code/rasterizer.cpp:94 | The depth remap preserves depth order in both directions |
| Rasterizer.SampleDepth | games101/Assignment2/code/rasterizer.cpp:152-153 | The perspective-correct depth of a covered sample lies between the nearest and farthest vertex depth |
| Rasterizer.SampleDepthUnitW | games101/Assignment2/code/rasterizer.cpp:152-153 | With every w equal to 1 the depth is plain barycentric interpolation of z |
| Rasterizer.SampleAt | games101/Assignment2/code/rasterizer.cpp:143-153 | A covered sample lies in the triangle's bounding box and in its depth range |
| Rasterizer.Samples | games101/Assignment2/code/rasterizer.cpp:130-146 | A pixel has four samples, one per fixed offset, in the source's visiting order; each sample point lies strictly inside the pixel's unit cell, so a covered sample means the triangle's extent reaches into the cell on both axes |
| Rasterizer.Accumulate | games101/Assignment2/code/rasterizer.cpp:137-166 | The count is the number of covered samples (zero exactly when none is covered), the depth sum is the sum of the covered samples' depths, and the colour sum is count copies of the flat colour |
| Rasterizer.AccumulateDepthWithin | games101/Assignment2/code/rasterizer.cpp:156-158 | If every covered depth is in [lo,hi], the depth sum lies between count*lo and count*hi |
| Rasterizer.FragmentAt | games101/Assignment2/code/rasterizer.cpp:137-166 | A pixel's fragment covers at most 4 samples, and its depth sum lies within count times the triangle's depth range |
| Rasterizer.MeanColorIsFlat | games101/Assignment2/code/rasterizer.cpp:159-174 | Any covered pixel's averaged colour is exactly the triangle's colour, whatever the count (no blending) |
| Rasterizer.MeanDepthWithin | games101/Assignment2/code/rasterizer.cpp:172-173 | The mean depth written for a covered pixel lies in the triangle's depth range |
| Rasterizer.ResolveCell | games101/Assignment2/code/rasterizer.cpp:172-174 | The stored depth never gets farther; a fragment with no covered sample changes nothing; the cell changes iff the test passes, and then it holds the mean depth |
| Rasterizer.ResolveCommutes | games101/Assignment2/code/rasterizer.cpp:172-174 | Two fragments at different mean depths give the same cell in either order |
| Rasterizer.ResolveCellAsWritten | games101/Assignment2/code/rasterizer.cpp:155-157 | With the stray write bound to the pixel's own entry, a pixel with no covered sample is still unchanged |
| Rasterizer.ResolveCellAsWrittenFullCover | games101/Assignment2/code/rasterizer.cpp:151-174 | With the stray write, a pixel fully covered at one depth keeps its colour and takes that depth, even when it is farther |
| Rasterizer.ResolveCellAsWrittenRaisesDepth | games101/Assignment2/code/rasterizer.cpp:157-174 | Concrete cells on which the stray write raises the stored depth to a farther triangle's depth and keeps a nearer triangle from drawing, unlike the depth-tested update |
| Rasterizer.DrawPixel | games101/Assignment2/code/rasterizer.cpp:172-174 | Only the entries at `get_index(x, y)` may change, as the depth test decides; a passing pixel gets the triangle's colour |
| Rasterizer.Trunc | games101/Assignment2/code/rasterizer.cpp:135-136 | `static_cast<int>` rounds toward zero: within one below a non-negative real and one above a negative one |
| Rasterizer.TruncVersusFloor | games101/Assignment2/code/rasterizer.cpp:135-136 | Truncation is floor on non-negative reals and floor+1 on negative non-integers |
| Rasterizer.BoundingBox | games101/Assignment2/code/rasterizer.cpp:124-136 | The loop ranges are never empty |
| Rasterizer.BoxMissesNothing | games101/Assignment2/code/rasterizer.cpp:124-136 | Every pixel with non-negative coordinates and a covered sample lies inside the truncated loop ranges |
| Rasterizer.Drawn | games101/Assignment2/code/rasterizer.cpp:117-177 | Drawing keeps the buffer sizes and never makes a stored depth farther; an on-screen pixel with no covered sample keeps its cell; a cell that changes holds the triangle's colour and a strictly nearer depth within the triangle's depth range |
| Rasterizer.DrawnIdempotent | games101/Assignment2/code/rasterizer.cpp:172-174 | Drawing the same triangle twice equals drawing it once |
| Rasterizer.DrawnCommute | games101/Assignment2/code/rasterizer.cpp:172-174 | If the two triangles' mean depths differ on every on-screen pixel both cover, the buffers are the same in either drawing order |
| Rasterizer.SeparatedDepthsDiffer | games101/Assignment2/code/rasterizer.cpp:156-173 | If all of one triangle lies nearer than all of another, their mean depths differ wherever both cover a pixel |
| Rasterizer.DrawnTwice | games101/Assignment2/code/rasterizer.cpp:172-174 | Drawing two triangles resolves each cell against both fragments in drawing order |
| Rasterizer.DrawAfterDepthClear | games101/Assignment2/code/rasterizer.cpp:201-204 | After a depth-only clear, every on-screen pixel with a covered sample shows the triangle's colour |
| Rasterizer.RasterizeTriangle | games101/Assignment2/code/rasterizer.cpp:117-177 | The loops over the truncated bounding box compute exactly the whole-screen reference `Drawn` |
| Rasterizer.DrawPixelAdvances | games101/Assignment2/code/rasterizer.cpp:137-176 | One pass of the inner loop at a box pixel draws exactly that pixel, extending the drawn region by one pixel in visiting order |
| Rasterizer.BoxSweepIsDrawn | games101/Assignment2/code/rasterizer.cpp:124-177 | Once every pixel of the truncated box is drawn, the buffers equal the whole-screen reference, since no covered pixel lies outside the box |
| Binomial.ChooseFactorial | games101/Assignment4/code/main.cpp:43-49 | Pascal's C(n,k) times k!(n-k)! is n!, the closed form the loop computes |
| Binomial.ChooseSymmetric | games101/Assignment4/code/main.cpp:38-41 | C(n,k) == C(n,n-k), which justifies replacing i by n-i |
| Binomial.ChooseStep | games101/Assignment4/code/main.cpp:44-47 | (k+1)*C(n,k+1) == (n-k)*C(n,k), so each `/= (k+1)` divides exactly |
| Binomial.BinomialCoefficient | games101/Assignment4/code/main.cpp:34-50 | Returns 0 for i>n and 1 for i==0 or i==n; returns C(n,i) for 0<=i<=n; returns 1 for a negative i with i<=n, where C(n,i) is 0 |
| Binomial.BinomialCoefficientChecked | games101/Assignment4/code/main.cpp:34-50 | With a guard for negative i the result is C(n,i) for every input, and it satisfies the factorial formula on 0<=i<=n |
| Bezier.RoundPreservesCurve | games101/Assignment4/code/main.cpp:59-70 | One round of neighbour interpolations leaves the curve point unchanged |
| Bezier.RecursiveBezier | games101/Assignment4/code/main.cpp:52-75 | An empty input has no result; otherwise the loop ends with one point, the de Casteljau curve point |
| Bezier.CasteljauAtZero | games101/Assignment4/code/main.cpp:63-73 | At t=0 the result is the first control point |
| Bezier.CasteljauAtOne | games101/Assignment4/code/main.cpp:63-73 | At t=1 the result is the last control point |
| Bezier.CasteljauShortPolygons | games101/Assignment4/code/main.cpp:56-73 | A single control point comes back unchanged; two give (1-t)p0 + t p1 |
| Bezier.CasteljauWithin | games101/Assignment4/code/main.cpp:63-67 | For t in [0,1], the curve point stays in any axis-aligned box that holds the control points |
| Bezier.CasteljauCubic | games101/Assignment4/code/main.cpp:26-27 | For four control points the de Casteljau point equals the cubic Bernstein form that `naive_bezier` evaluates |

## Left out

- The MVP multiply and homogeneous division in `draw` (rasterizer.cpp:76-88): these are library matrix maths. `Geometry.Viewport` starts from normalised device coordinates.
- The vertex-index loop of `draw` and the triangle construction (rasterizer.cpp:77-113): one call of `rasterize_triangle` per index triple is not modelled separately.
- The buffer registries `load_positions`, `load_indices` and `load_colors` (rasterizer.cpp:14-36): keyed storage. `get_next_id` and rasterizer.hpp are not part of this model.
- `rst::Buffers` flag values: rasterizer.hpp is not part of this model, so `clear`'s argument is two booleans (`ClearMask`).
- Triangle.hpp and Triangle.cpp are not part of this model. A triangle is three screen-space vertices (with w) and the single colour that `getColor` returns.
- The stray write at rasterizer.cpp:157 names an identifier `index` whose declaration on line 155 is commented out. As written, the file does not compile. `ResolveCellAsWritten` binds `index` as line 155 would. The model proper (`ResolveCell`, `DrawPixel`) follows lines 172-174 only.
- IEEE-754 behaviour: rounding, NaN and infinity from a degenerate triangle, and the 1e-6 epsilon acting on rounded sums. Reals are exact, so `WellFormed` excludes zero-area triangles and non-positive w.
- Pixels outside the screen: the source writes out of bounds for triangles that leave the screen. `RasterizeTriangle` requires its box on screen instead.
- `Create`: Eigen leaves the colour vectors uninitialised, so their contents are a parameter.
- Binomial.BinomialCoefficient: does not model `long long` overflow of `result *= (n - k)` or `int` overflow of `n - i`, because integers here are unbounded.
- `naive_bezier`, `bezier`, the mouse handler, the OpenCV window and the main loop (main.cpp:7-32, 77-132): float stepping over t, image writes and UI. `CasteljauCubic` uses only the closed form that `naive_bezier` evaluates.
- Bezier.RecursiveBezier: does not model the undefined read of `points[0]` on an empty input. It returns `None` instead.

## Findings

| source | as written | input that shows it | evidently intended | confidence | as-written member | corrected member |
|---|---|---|---|---|---|---|
| games101/Assignment2/code/rasterizer.cpp:54-65 | `insideTriangle` accepts a pixel when `c1 + c2 + c3 - 1 <= 1e-6`. The coordinates always sum to 1, so the test accepts every pixel. | Pixel (5,5) against the triangle (0,0), (1,0), (0,1): its coordinates are (-9, 5, 5), and it is accepted. | Accept exactly when all three coordinates are non-negative, as the pixel loop tests inline at line 151. | not executed | Geometry.InsideTriangleAsWrittenAcceptsOutside | Geometry.CoveredIffConvex |
| games101/Assignment2/code/rasterizer.cpp:157 | Every covered sample stores its depth in `depth_buf[index]` before the pixel's depth test. The test then compares the mean depth with a value the loop itself just wrote. | A pixel stores red at depth 1. A blue triangle covers all four samples at depth 5: red stays, but the stored depth rises to 5. A green triangle then covers all four samples at depth 3 over red at depth 5: the pixel stays red, at depth 3. A fully covered pixel at constant depth is never drawn. | Only the tested write of lines 172-174. Blue is rejected and the depth stays 1. Green at depth 3 over red at depth 5 is drawn. | not executed | Rasterizer.ResolveCellAsWrittenRaisesDepth | Rasterizer.ResolveCell |
| games101/Assignment4/code/main.cpp:34-50 | A negative `i` with `i <= n` passes both guards. The loop then runs zero times and returns 1. | `binomialCoefficient(4, -1)` returns 1. | C(n, i) = 0 for i < 0. | not executed | Binomial.BinomialCoefficient | Binomial.BinomialCoefficientChecked |
