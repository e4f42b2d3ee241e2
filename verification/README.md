# Ray tracer core in Dafny

This project models the geometric and rendering core of a small Rust path
tracer:

- the `Vector3` type and its operations (`src/vector.rs`);
- rays and the camera's primary ray (`src/lib.rs`);
- `Object::intersection`, which takes a world ray into an object's local space
  through its inverse transforms and brings the hit back out (`src/object.rs`);
- `Scene::closest_intersection`, the fold that keeps the nearest hit beyond
  `tmin`;
- `Scene::sample`, which hands that hit to the object's material;
- `Scene::render`, which maps pixel indices to coordinates, averages the
  samples, gamma-encodes the colour and clamps it.

`f32` is modelled as `real`, without rounding. Where the source divides by a
norm that can be zero and gets NaN components, the model returns `None`.
Operations the source leaves unimplemented or that are plain float library
calls are parameters of the operations that use them, and lemmas state what
they assume about them as hypotheses:

- square root;
- `powf`;
- the three transform operations;
- `Shape::intersection`;
- `Material::lighting`;
- the camera's direction arithmetic.

Files, one module each:

- `options.dfy`: `Option`.
- `folds.dfy`: left folds and reversal, the iterator plumbing.
- `vector.dfy`: vectors.
- `ray.dfy`: rays and the camera.
- `transform.dfy`: transforms.
- `material.dfy`: materials.
- `object.dfy`: object intersection.
- `selection.dfy`: the closest-hit selection rule.
- `scene.dfy`: scene intersection and sampling.
- `render.dfy`: the render loop.

## Model

| member | source | states |
|---|---|---|
| Vectors.New | src/vector.rs:34-36 | `Vector3::new`: the vector with the given components |
| Vectors.Zeros | src/vector.rs:39-41 | `Vector3::zeros` |
| Vectors.Ones | src/vector.rs:44-46 | `Vector3::ones` |
| Vectors.ConstructorsAgree | src/vector.rs:159-175 | `zeros()` and `ones()` equal `new(0,0,0)` and `new(1,1,1)`, and `new` stores its components |
| Vectors.SquaredNorm | src/vector.rs:56-58 | the squared norm is never negative |
| Vectors.SquaredNormZeroIffZero | src/vector.rs:56-58 | the squared norm is zero exactly for the zero vector |
| Vectors.SquaredNormIsSelfDot | src/vector.rs:56-58 | the squared norm is the dot product of a vector with itself |
| Vectors.SquaredNormTestVectors | src/vector.rs:178-209 | (1,2,2) has squared norm 9 and (2,3,6) has squared norm 49 |
| Vectors.NormTestVectors | src/vector.rs:178-209 | with an exact square root, (1,2,2) has norm 3 and (2,3,6) has norm 7 |
| Vectors.Norm | src/vector.rs:61-63 | with an exact square root, the norm is non-negative and its square is the squared norm |
| Vectors.NormIsUniqueRoot | src/vector.rs:61-63 | with an exact square root, a non-negative number squares to the squared norm if and only if it is the norm |
| Vectors.Normalized | src/vector.rs:66-69 | the result is undefined exactly when the norm is zero; otherwise scaling it by the norm gives back the vector |
| Vectors.NormalizedDegenerateExactlyAtZero | src/vector.rs:66-69 | with an exact square root, normalization fails exactly for the zero vector |
| Vectors.NormalizedHasUnitLength | src/vector.rs:66-69 | with an exact square root, a normalized vector has squared norm one |
| Vectors.Unit | src/vector.rs:49-53 | `unit(x, y, z)` is `new(x, y, z).normalized()` |
| Vectors.UnitTestVectors | src/vector.rs:211-232 | `unit` and `normalized` agree on (1,2,2) and (2,3,6) |
| Vectors.Dot | src/vector.rs:72-74 | a vector dotted with itself gives its squared norm |
| Vectors.DotTestVectors | src/vector.rs:234-253 | (1,2,2)·(2,3,6) = 20 and (2,3,6)·(1,4,8) = 62 |
| Vectors.DotCommutes | src/vector.rs:72-74 | the dot product is symmetric |
| Vectors.Cross | src/vector.rs:77-83 | the cross product is orthogonal to both operands |
| Vectors.CrossBasisCycle | src/vector.rs:256-281 | x×y = z, y×z = x and z×x = y for the unit axes |
| Vectors.CrossTestVector | src/vector.rs:282-290 | (1,2,3)×(−1,10,1) = (−28,−4,12) |
| Vectors.CrossAnticommutes | src/vector.rs:77-83 | swapping the operands negates the cross product |
| Vectors.CrossIsOrthogonal | src/vector.rs:77-83 | the cross product is orthogonal to both operands |
| Vectors.Cwise | src/vector.rs:87-89 | `cwise`: `f` applied to each pair of matching components |
| Vectors.CwiseMul | src/vector.rs:92-94 | `cwise_mul`: the component-wise product, its values taken from the unit test |
| Vectors.CwiseIsComponentwise | src/vector.rs:87-89 | each component of `cwise` depends only on the same components of the inputs, through `f` |
| Vectors.CwiseDiv | src/vector.rs:97-99 | component-wise division is undefined exactly when a divisor component is zero; otherwise multiplying back gives the dividend |
| Vectors.CwiseDivUndoesMul | src/vector.rs:92-99 | dividing a component-wise product by a non-zero factor recovers the other factor |
| Vectors.CwiseTestVectors | src/vector.rs:294-313 | (1,1,1)∘(1,2,4) = (1,2,4) and (1,1,1)/(1,2,4) = (1,0.5,0.25) |
| Vectors.OperatorTestVectors | src/vector.rs:316-356 | the sums, differences, scalings and negation of the operator tests |
| Vectors.Add | src/vector.rs:117-119 | subtracting the second operand from the sum gives back the first |
| Vectors.Sub | src/vector.rs:123-125 | the component-wise difference |
| Vectors.MulScalar | src/vector.rs:129-131 | `v * s`: each component scaled by `s` |
| Vectors.ScalarMul | src/vector.rs:135-137 | `s * v` equals `v * s` |
| Vectors.Neg | src/vector.rs:141-143 | the negation is the additive inverse: adding it gives zeros |
| Vectors.SubUndoesAdd | src/vector.rs:117-125 | subtraction undoes addition and addition undoes subtraction |
| Vectors.AddCommutes | src/vector.rs:117-119 | vector addition is commutative |
| Vectors.ScalarMulCommutes | src/vector.rs:129-137 | `s * v` and `v * s` agree |
| Vectors.NegIsScaleByMinusOne | src/vector.rs:141-143 | negation is scaling by −1, is its own inverse, and cancels under addition |
| Folds.FoldLeft | src/object.rs:43-46 | `fold`: the step applied to each element in order, starting from the initial value |
| Folds.FoldLeftSnoc | src/object.rs:43-46 | folding one more element on the right applies one more step to the fold's result |
| Folds.Reverse | src/object.rs:33-37 | `rev()` yields the same number of elements, the i-th from the end first |
| Folds.ReverseSnoc | src/object.rs:33-37 | reversing a list with one more element at the end puts that element first |
| Rays.At | src/lib.rs:24-26 | `Ray::at`: the point `origin + direction * t` |
| Rays.AtZeroIsOrigin | src/lib.rs:24-26 | a ray is at its origin at parameter zero |
| Rays.AtDisplacement | src/lib.rs:24-26 | the point at `t` lies `direction * t` from the origin |
| Rays.AtComposes | src/lib.rs:24-26 | moving `s` and then `t` along a ray is moving `s + t` |
| Rays.CameraRay | src/lib.rs:38-52 | every primary ray starts at the origin, in the direction computed for its pixel |
| Objects.ToLocal | src/object.rs:33-37 | the reversed fold that takes the world ray to local space through each transform's inverse |
| Objects.ToLocalIsInverseChain | src/object.rs:33-37 | the reversed fold of inverses equals T1⁻¹(T2⁻¹(…Tn⁻¹(ray))) |
| Objects.LastInverseAppliedFirst | src/object.rs:33-37 | the last transform's inverse is the first one applied to the world ray |
| Objects.ToWorld | src/object.rs:43-46 | the forward fold that takes a local point to world space |
| Objects.ToWorldIsForwardChain | src/object.rs:43-46 | the forward fold of the position equals Tn(…T2(T1(p))) |
| Objects.InverseChainOriginMapsBack | src/object.rs:33-46 | if inverses undo transforms and rays move with their origins, the chain of inverses followed by the chain of transforms restores the ray's origin |
| Objects.LocalOriginMapsBack | src/object.rs:33-46 | the same for the two folds of `intersection`: the reversed inverse fold is undone by the forward fold |
| Objects.NormalStep | src/object.rs:52-56 | the per-variant rule for one transform acting on a normal |
| Objects.NormalFold | src/object.rs:49-56 | that rule folded over the transforms in order, before renormalization |
| Objects.NormalFoldLastStep | src/object.rs:49-56 | each transform acts on the normal by its variant: translation keeps it, rotation applies itself, scaling applies its inverse |
| Objects.TranslationsKeepNormal | src/object.rs:49-56 | a list of translations leaves a normal unchanged |
| Objects.Intersect | src/object.rs:31-60 | the object misses exactly when its shape misses the inversely transformed ray; a hit keeps the shape's `t`, maps the position forward through the transforms, and renormalizes the transformed normal |
| Objects.IntersectWithoutTransforms | src/object.rs:31-60 | with no transforms the shape sees the world ray and the hit is reported unchanged, apart from renormalizing the normal |
| Selection.Step | src/lib.rs:177-183 | the fold's closure: take a hit beyond `tmin` if there is no pick yet, or if it is strictly nearer than the current pick |
| Selection.SelectPrefix | src/lib.rs:177-183 | the fold over the first n results is empty exactly when none lies beyond `tmin`, and otherwise picks a hit that is nearest, beyond `tmin`, and strictly nearer than every earlier qualifying hit |
| Selection.Select | src/lib.rs:174-183 | the same over all results |
| Selection.ClosestIsUnique | src/lib.rs:177-183 | at most one hit meets that description |
| Selection.SelectIsClosest | src/lib.rs:177-183 | the fold returns a given pick if and only if that pick meets the description |
| Selection.TieGoesToEarliest | src/lib.rs:179-182 | of two qualifying hits at the same distance, the later object is never chosen |
| Scenes.ObjectHits | src/lib.rs:174-176 | one intersection result per object, in list order |
| Scenes.ClosestIntersection | src/lib.rs:169-184 | no hit exactly when no object is hit beyond `tmin`; otherwise the chosen object is hit at the reported `t` and point, beyond `tmin`, no farther than any other object's hit, and strictly nearer than every earlier object's |
| Scenes.Sample | src/lib.rs:186-202 | black with no bounces left or when nothing is hit; otherwise the hit object's material lit from the reversed ray direction at the hit point and normal, with one bounce fewer |
| Scenes.SampleBlackWithoutHit | src/lib.rs:186-202 | a sample is black whenever the bounces are spent or no object is hit beyond `tmin` |
| Scenes.EmptySceneSamplesBlack | src/lib.rs:186-202 | a scene without objects samples black along every ray |
| Scenes.SampleLightsNearestObject | src/lib.rs:177-197 | when one object is hit beyond `tmin` strictly nearer than every other such object, a sample with bounces left is that object's material lighting that object's hit, seen from the reversed ray direction |
| Renderer.Gamma | src/lib.rs:216-222 | the sRGB transfer function: linear below 0.0031308, a power curve above |
| Renderer.Encode | src/lib.rs:225 | the transfer function applied to each component |
| Renderer.Min | src/lib.rs:226 | `f32::min` returns one of its operands and is no greater than either |
| Renderer.Clamp | src/lib.rs:226 | components above one become one and all others are kept |
| Renderer.GammaEndpoints | src/lib.rs:216-222 | the transfer function maps 0 to 0, and 1 to 1 when `powf(1, 1/2.4)` is 1 |
| Renderer.NegativeRadianceSurvives | src/lib.rs:216-226 | a negative component is scaled by 12.92 and is not clamped from below, so the final pixel stays negative |
| Renderer.SumOf | src/lib.rs:211-214 | the draws added one at a time onto zeros |
| Renderer.SumOfConstant | src/lib.rs:211-214 | adding n copies of a colour adds that colour scaled by n |
| Renderer.Average | src/lib.rs:224 | the sum scaled by the reciprocal of the sample count |
| Renderer.AverageOfEqualDraws | src/lib.rs:224 | draws that all equal one colour average to that colour |
| Renderer.DrawOf | src/lib.rs:213 | draw `s` of pixel `i`: the scene sampled along the pixel's ray from distance 0 with 3 bounces |
| Renderer.Draws | src/lib.rs:212-214 | one draw per iteration of the sample loop, as many as there are samples |
| Renderer.DrawsAreSamples | src/lib.rs:213 | draw `s` is `Scene::sample(ray, 0.0, 3)` evaluated with that draw's lighting |
| Renderer.EmptySceneDrawsBlack | src/lib.rs:212-214 | every draw in a scene without objects is black |
| Renderer.AccumulateSamples | src/lib.rs:211-214 | the loop leaves the sum of the pixel's samples in `color` |
| Renderer.PixelColor | src/lib.rs:224-226 | every component of a finished pixel is at most one |
| Renderer.UniformPixel | src/lib.rs:224-226 | a pixel whose draws all equal one colour shows that colour, gamma-encoded and capped at one |
| Renderer.Pixel | src/lib.rs:207-226 | the pixel at index `i`: the colour of column `i % xres` and row `i / xres` |
| Renderer.Render | src/lib.rs:204-231 | the image has `xres * yres` pixels; pixel `i` is the colour of column `i % xres` and row `i / xres`, computed from scene samples at distance 0 with 3 bounces; every component is at most one; a scene without objects renders black when at least one sample is taken |
| Renderer.RowMajorLayout | src/lib.rs:205-207 | pixel (x, y) lies at index `y * xres + x`, inside the buffer, and that index maps back to (x, y) |
| Renderer.IndexDecomposes | src/lib.rs:205-207 | every buffer index maps to a column below `xres` and a row below `yres` that recompose to it |
| Renderer.DivModUnique | src/lib.rs:207 | quotient and remainder by the width are unique, so the index-to-pixel map is one-to-one |
| Renderer.EmptySceneRendersBlack | src/lib.rs:204-231 | with at least one sample, every pixel of a scene without objects is black |
| Renderer.PixelCountAsWritten | src/lib.rs:205 | the pixel count is the product of the resolutions whenever that fits in `u32` |
| Renderer.PixelCountWraps | src/lib.rs:205 | for a 65536 by 65536 image the wrapped count is zero |

## Left out

- Float rounding, infinities and NaN: `f32` is `real`. The source divides by a possibly zero value in four places:
  - `normalized` (`Vectors.Normalized`) and `unit` (`Vectors.Unit`) divide by a zero norm; the model returns `None`.
  - `cwise_div` (`Vectors.CwiseDiv`) divides by a zero component; the model returns `None`.
  - `render` divides by a sample count of zero; `Renderer.PixelColor` returns the white pixel that the NaN arithmetic produces.
- `Vectors.Normalized`, `Vectors.Unit`: `None` stands for the NaN vector the source returns for a zero norm.
- `Vectors.CwiseDiv`, `Vectors.CwiseMul`, `Vectors.Add`, `Vectors.Sub`, `Vectors.MulScalar`, `Vectors.ScalarMul`, `Vectors.Neg`: the source leaves these bodies empty. The model follows the results its unit tests expect.
- Square root, `powf` and `powi(2)` are library calls. `powi(2)` is written as a product. Square root and `powf` are parameters. The norm lemmas assume an exact square root, stated as a hypothesis.
- `Camera::ray` direction arithmetic (aspect ratio, pixel offsets, `Vector3::unit`) is a parameter `aim`. Only the zero origin is modelled.
- `Transform::inverse`, `transform` and `transform_ray` (`src/transform.rs`) and `Shape::intersection` have no bodies in the source, so they are parameters. The only properties assumed of them are the lemma hypotheses in `transform.dfy`.
- `Material::lighting` has no body in the source and is a parameter. `material.rs` supplies only the variants.
- `Scenes.Sample` is not recursive in the model, because the recursion would go through `lighting`, which is a parameter.
- The random number helpers (`random::uniform`, `random::normal`) are left out. Randomness could only enter a sample through the material lighting estimator. The model therefore gives each draw its own lighting function, chosen by pixel index and sample index.
- Renderer.Render: each draw is `Scene::sample` at distance 0 with 3 bounces, as in the source. The lighting estimator of each draw is a parameter, so the model does not say which random values the source would draw.
- Rendering runs on a rayon parallel iterator. It is modelled as a sequential loop; the order does not change the result.
- PNG output (`Image::save`), JSON scene loading (`Scene::from_json`), `main.rs`, `Display` and the reference-operator macros are I/O or plumbing. They are not part of this model.
- `Renderer.PixelColor`: with zero samples the source computes NaN, which `f32::min` turns into 1. The model returns white directly instead of deriving it from NaN arithmetic.
- `Renderer.Render`: uses the mathematical product `xres * yres` rather than the wrapped `u32` product (see Findings).

## Findings

| source | as written | input that shows it | evidently intended | confidence | as-written member | corrected member |
|---|---|---|---|---|---|---|
| src/lib.rs:205 | `0..xres * yres` multiplies two `u32`s in `u32`; a release build wraps modulo 2^32 and a debug build panics | `xres = yres = 65536`: the wrapped count is 0, so an image declared 65536×65536 has no pixels | one pixel per coordinate pair, `xres * yres` pixels | low; not executed | Renderer.PixelCountAsWritten (counterexample Renderer.PixelCountWraps) | Renderer.Render (proves `\|pixels\| == width * height`) |
