/**
 The render loop of `Scene::render` (`src/lib.rs`): one pixel per index in
 row-major order, each the average of `samples` radiance samples, sRGB
 gamma-encoded and clamped from above at one. The parallel map of the source
 is modelled as a sequential loop; the result does not depend on the order.
 */
module Renderer {
  import opened Folds
  import opened Vectors
  import opened Rays
  import opened Objects
  import opened Scenes

  /** A row-major pixel buffer with its dimensions. */
  datatype Image = Image(pixels: seq<Vector3>, width: nat, height: nat)

  /** One more than the largest `u32`. */
  const U32_MODULUS: nat := 0x1_0000_0000

  /** Each primary sample starts at distance zero with a budget of three bounces. */
  const PRIMARY_TMIN: real := 0.0
  const PRIMARY_BOUNCES: nat := 3

  // Colour post-processing

  /** The sRGB transfer function; `powf` is float exponentiation, not interpreted here. */
  function Gamma(powf: (real, real) -> real, u: real): real {
    if u < 0.0031308 then 12.92 * u else 1.055 * powf(u, 1.0 / 2.4) - 0.055
  }

  /** `f32::min` on ordinary (non-NaN) values. */
  function Min(a: real, b: real): (m: real)
    ensures m <= a && m <= b
    ensures m == a || m == b
  {
    if a <= b then a else b
  }

  /** The transfer function applied to each component; the paired component of the ones vector is ignored. */
  function Encode(powf: (real, real) -> real, c: Vector3): Vector3 {
    Cwise(c, Ones(), (u, unused) => Gamma(powf, u))
  }

  /** Each component capped at one by taking its minimum with the ones vector. */
  function Clamp(c: Vector3): (r: Vector3)
    ensures r.x <= 1.0 && r.y <= 1.0 && r.z <= 1.0
    ensures c.x <= 1.0 ==> r.x == c.x
    ensures c.y <= 1.0 ==> r.y == c.y
    ensures c.z <= 1.0 ==> r.z == c.z
    ensures c.x > 1.0 ==> r.x == 1.0
    ensures c.y > 1.0 ==> r.y == 1.0
    ensures c.z > 1.0 ==> r.z == 1.0
  {
    Cwise(c, Ones(), Min)
  }

  /** Black stays black and full white stays white under the transfer function. */
  lemma GammaEndpoints(powf: (real, real) -> real)
    requires powf(1.0, 1.0 / 2.4) == 1.0
    ensures Gamma(powf, 0.0) == 0.0
    ensures Gamma(powf, 1.0) == 1.0
  {
  }

  /** There is no lower clamp: a negative radiance component stays negative in the final pixel. */
  lemma NegativeRadianceSurvives(powf: (real, real) -> real, c: Vector3)
    requires c.x < 0.0
    ensures Clamp(Encode(powf, c)).x == 12.92 * c.x < 0.0
  {
  }

  // Accumulating and averaging samples

  /** The running sum of the draws, added one at a time from zeros. */
  function SumOf(draws: seq<Vector3>): Vector3 {
    FoldLeft(Add, Zeros(), draws)
  }

  /** Adding `n` copies of `c` onto `acc` adds `c` scaled by `n`. */
  lemma {:induction false} SumOfConstant(acc: Vector3, draws: seq<Vector3>, c: Vector3)
    requires forall s :: 0 <= s < |draws| ==> draws[s] == c
    ensures FoldLeft(Add, acc, draws) == Add(acc, MulScalar(c, |draws| as real))
    decreases |draws|
  {
    var n := |draws| as real;
    if |draws| == 0 {
      assert MulScalar(c, 0.0) == Zeros();
    } else {
      SumOfConstant(Add(acc, c), draws[1..], c);
      assert c.x * (n - 1.0) + c.x == c.x * n;
      assert c.y * (n - 1.0) + c.y == c.y * n;
      assert c.z * (n - 1.0) + c.z == c.z * n;
    }
  }

  /** The sum of the draws scaled by the reciprocal of their number. */
  function Average(draws: seq<Vector3>): Vector3
    requires |draws| > 0
  {
    ScalarMul(1.0 / (|draws| as real), SumOf(draws))
  }

  /** Draws that all equal `c` average to `c`. */
  lemma AverageOfEqualDraws(draws: seq<Vector3>, c: Vector3)
    requires |draws| > 0
    requires forall s :: 0 <= s < |draws| ==> draws[s] == c
    ensures Average(draws) == c
  {
    var n := |draws| as real;
    SumOfConstant(Zeros(), draws, c);
    assert SumOf(draws) == MulScalar(c, n);
    assert (1.0 / n) * (c.x * n) == c.x;
    assert (1.0 / n) * (c.y * n) == c.y;
    assert (1.0 / n) * (c.z * n) == c.z;
  }

  /**
   Which material lighting serves draw `s` of pixel `i`. `Scene::sample` is a
   function of the scene, the ray and the lighting estimator; the estimator
   draws random numbers, so each draw gets its own.
   */
  type Lightings = (nat, nat) -> Lighting

  /** The first `n` values of `draw`, in order. */
  function Take(draw: nat -> Vector3, n: nat): (d: seq<Vector3>)
    ensures |d| == n
    ensures forall s :: 0 <= s < n ==> d[s] == draw(s)
  {
    seq(n, s requires 0 <= s < n => draw(s))
  }

  /** Draw `s` of pixel `i`: one scene sample along its ray, from distance zero with three bounces. */
  function DrawOf(prims: Primitives, scene: Scene, lightings: Lightings, i: nat, ray: Ray): nat -> Vector3 {
    (s: nat) => Sample(prims, lightings(i, s), scene, ray, PRIMARY_TMIN, PRIMARY_BOUNCES)
  }

  /** The draws of pixel `i`, one per iteration of its sample loop. */
  function Draws(prims: Primitives, scene: Scene, lightings: Lightings, i: nat, ray: Ray, samples: nat): (d: seq<Vector3>)
    ensures |d| == samples
  {
    Take(DrawOf(prims, scene, lightings, i, ray), samples)
  }

  /** Draw `s` of a pixel is the scene sampled along its ray from distance zero with three bounces, with that draw's lighting. */
  lemma DrawsAreSamples(prims: Primitives, scene: Scene, lightings: Lightings, i: nat, ray: Ray, samples: nat, s: nat)
    requires s < samples
    ensures Draws(prims, scene, lightings, i, ray, samples)[s] == Sample(prims, lightings(i, s), scene, ray, 0.0, 3)
  {
  }

  /** The sample loop of one pixel: adds each draw onto a colour that starts at zeros. */
  method AccumulateSamples(draw: nat -> Vector3, samples: nat) returns (color: Vector3)
    ensures color == SumOf(Take(draw, samples))
  {
    color := Zeros();
    var s := 0;
    while s < samples
      invariant 0 <= s <= samples
      invariant color == SumOf(Take(draw, s))
    {
      assert Take(draw, s + 1) == Take(draw, s) + [draw(s)];
      FoldLeftSnoc(Add, Zeros(), Take(draw, s), draw(s));
      color := Add(color, draw(s));
      s := s + 1;
    }
  }

  /**
   The colour of one pixel from its draws: the average, gamma-encoded, capped
   at one. With no draws the source divides the zero sum by zero samples; the
   NaN components pass through the transfer function and the final minimum
   with one turns each into one, so the pixel is white.
   */
  function PixelColor(powf: (real, real) -> real, draws: seq<Vector3>): (c: Vector3)
    ensures c.x <= 1.0 && c.y <= 1.0 && c.z <= 1.0
  {
    if |draws| == 0 then Ones() else Clamp(Encode(powf, Average(draws)))
  }

  /** A pixel whose draws all agree shows that colour, encoded and capped. */
  lemma UniformPixel(powf: (real, real) -> real, draws: seq<Vector3>, c: Vector3)
    requires |draws| > 0
    requires forall s :: 0 <= s < |draws| ==> draws[s] == c
    ensures PixelColor(powf, draws) == Clamp(Encode(powf, c))
  {
    AverageOfEqualDraws(draws, c);
  }

  /** The pixel at index `i`: column `i % xres`, row `i / xres`. */
  function Pixel(prims: Primitives, scene: Scene, xres: nat, yres: nat, samples: nat,
                 aim: (Camera, nat, nat, nat, nat) -> Vector3, lightings: Lightings,
                 powf: (real, real) -> real, i: nat): Vector3
    requires xres > 0
  {
    var ray := CameraRay(scene.camera, i % xres, i / xres, xres, yres, aim);
    PixelColor(powf, Draws(prims, scene, lightings, i, ray, samples))
  }

  /** Every draw along any ray of a scene without objects is black. */
  lemma EmptySceneDrawsBlack(prims: Primitives, scene: Scene, lightings: Lightings, i: nat, ray: Ray, samples: nat)
    requires |scene.objects| == 0
    ensures forall s :: 0 <= s < samples ==> Draws(prims, scene, lightings, i, ray, samples)[s] == Zeros()
  {
    forall s | 0 <= s < samples
      ensures Sample(prims, lightings(i, s), scene, ray, PRIMARY_TMIN, PRIMARY_BOUNCES) == Zeros()
    {
      EmptySceneSamplesBlack(prims, lightings(i, s), scene, ray, PRIMARY_TMIN, PRIMARY_BOUNCES);
    }
  }

  /** With at least one sample, every pixel of a scene without objects is black. */
  lemma EmptySceneRendersBlack(prims: Primitives, scene: Scene, xres: nat, yres: nat, samples: nat,
                               aim: (Camera, nat, nat, nat, nat) -> Vector3, lightings: Lightings,
                               powf: (real, real) -> real, i: nat)
    requires |scene.objects| == 0
    requires xres > 0 && samples > 0
    ensures Pixel(prims, scene, xres, yres, samples, aim, lightings, powf, i) == Zeros()
  {
    var ray := CameraRay(scene.camera, i % xres, i / xres, xres, yres, aim);
    EmptySceneDrawsBlack(prims, scene, lightings, i, ray, samples);
    UniformPixel(powf, Draws(prims, scene, lightings, i, ray, samples), Zeros());
    assert Gamma(powf, 0.0) == 0.0;
  }

  /** The render loop: one pixel per index below `xres * yres`, in order. */
  method Render(prims: Primitives, scene: Scene, xres: nat, yres: nat, samples: nat,
                aim: (Camera, nat, nat, nat, nat) -> Vector3, lightings: Lightings,
                powf: (real, real) -> real) returns (image: Image)
    ensures image.width == xres && image.height == yres
    ensures |image.pixels| == image.width * image.height
    ensures forall i :: 0 <= i < |image.pixels| ==>
      xres > 0 && image.pixels[i] == Pixel(prims, scene, xres, yres, samples, aim, lightings, powf, i)
    ensures forall i :: 0 <= i < |image.pixels| ==>
      image.pixels[i].x <= 1.0 && image.pixels[i].y <= 1.0 && image.pixels[i].z <= 1.0
    ensures |scene.objects| == 0 && samples > 0 ==>
      forall i :: 0 <= i < |image.pixels| ==> image.pixels[i] == Zeros()
  {
    var pixels: seq<Vector3> := [];
    var i := 0;
    while i < xres * yres
      invariant 0 <= i <= xres * yres
      invariant |pixels| == i
      invariant forall j :: 0 <= j < i ==>
        xres > 0 && pixels[j] == Pixel(prims, scene, xres, yres, samples, aim, lightings, powf, j)
    {
      var x, y := i % xres, i / xres;
      var ray := CameraRay(scene.camera, x, y, xres, yres, aim);
      var color := AccumulateSamples(DrawOf(prims, scene, lightings, i, ray), samples);
      var pixel := if samples == 0 then Ones()
                   else Clamp(Encode(powf, ScalarMul(1.0 / (samples as real), color)));
      assert pixel == Pixel(prims, scene, xres, yres, samples, aim, lightings, powf, i);
      pixels := pixels + [pixel];
      i := i + 1;
    }
    image := Image(pixels, xres, yres);
    if |scene.objects| == 0 && samples > 0 {
      forall j | 0 <= j < |pixels|
        ensures pixels[j] == Zeros()
      {
        EmptySceneRendersBlack(prims, scene, xres, yres, samples, aim, lightings, powf, j);
      }
    }
  }

  // Pixel indexing

  lemma MulMonotone(a: nat, b: nat, c: nat)
    requires a <= b
    ensures a * c <= b * c
  {
  }

  /** Pixel `(x, y)` sits at index `y * xres + x`, inside the buffer, and decomposes back to `(x, y)`. */
  lemma RowMajorLayout(xres: nat, yres: nat, x: nat, y: nat)
    requires x < xres && y < yres
    ensures y * xres + x < xres * yres
    ensures (y * xres + x) % xres == x
    ensures (y * xres + x) / xres == y
  {
    MulMonotone(y + 1, yres, xres);
    assert (y + 1) * xres == y * xres + xres;
    assert yres * xres == xres * yres;
    DivModUnique(y * xres + x, xres, y, x);
  }

  /** Every buffer index decomposes into a column below `xres` and a row below `yres`. */
  lemma IndexDecomposes(xres: nat, yres: nat, i: nat)
    requires i < xres * yres
    ensures xres > 0
    ensures i % xres < xres && i / xres < yres
    ensures (i / xres) * xres + i % xres == i
  {
  }

  lemma DivModUnique(n: nat, d: nat, q: nat, r: nat)
    requires d > 0 && r < d && n == q * d + r
    ensures n / d == q && n % d == r
  {
    var a := q - n / d;
    assert a * d == n % d - r by {
      assert n == (n / d) * d + n % d;
      assert q * d - (n / d) * d == a * d;
    }
    if a >= 1 {
      MulMonotone(1, a, d);
    } else if a <= -1 {
      MulMonotone(1, -a, d);
    }
  }

  // The pixel count

  /**
   The pixel count as the source computes it: the product of two `u32`
   resolutions, itself a `u32`, which a release build wraps modulo 2^32 (a
   debug build panics instead).
   */
  function PixelCountAsWritten(xres: nat, yres: nat): (n: nat)
    requires xres < U32_MODULUS && yres < U32_MODULUS
    ensures n < U32_MODULUS
    ensures xres * yres < U32_MODULUS ==> n == xres * yres
  {
    (xres * yres) % U32_MODULUS
  }

  /** A 65536 by 65536 image gets no pixels at all from the wrapped count. */
  lemma PixelCountWraps()
    ensures PixelCountAsWritten(65536, 65536) == 0
    ensures 65536 * 65536 == U32_MODULUS
  {
  }
}
