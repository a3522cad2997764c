/**
  Fractal sums of value noise: fifteen octaves of one sampler, each read at a
  point carried further along an orbit of a fixed rotate-translate-dilate map and
  weighted by a geometrically falling amplitude.

  The loop, its reference sum and their properties are stated for any
  `Recurrence` (the rotation, translation, dilation and amplitude ratio applied
  per octave), and `Golden` holds the constants of `fractal.go`. The sampler is a
  parameter too, so the bilinear and bicubic fractals are one loop with two
  samplers. Go's untyped constants are exact, and floating point is modelled by
  exact reals.
 */
module Fractal {
  import Lattice
  import ValueNoise

  /** The dilation per octave: the golden ratio to 64 decimal places. */
  const Scale: real := 1.6180339887498948482045868343656381177203091798057628621354486227

  /** The amplitude ratio between consecutive octaves. */
  const InvScale: real := 1.0 / Scale

  /** The rotation per octave, by its cosine and sine. */
  const CosAngle: real := -0.362374890080480119958646637474986899360865544005598546450156788
  const SinAngle: real := 0.9320324238132276215340316686911046913861543007830788182892528729

  /** The translation per octave, applied after the rotation and before the dilation. */
  const OffsetX: real := Scale * Lattice.Size as real
  const OffsetY: real := (Scale - 1.0) * (Scale - 1.0) * Lattice.Size as real

  /** The number of octaves summed. */
  const Octaves: nat := 15

  lemma OctavesPositive()
    ensures Octaves > 0
  {
  }

  /** What one octave does: rotate, translate, dilate the point, and scale the amplitude by `ratio`. */
  datatype Recurrence = Recurrence(cos: real, sin: real, offsetX: real, offsetY: real, scale: real, ratio: real)

  /** The recurrence the fractal uses. */
  const Golden: Recurrence := Recurrence(CosAngle, SinAngle, OffsetX, OffsetY, Scale, InvScale)

  /** The scale exceeds one, so the amplitude ratio lies strictly between zero and one. */
  lemma ScaleBounds()
    ensures 1.0 < Scale < 2.0
    ensures 0.0 < InvScale < 1.0 && InvScale * Scale == 1.0
  {
  }

  /** The scale solves `s^2 = s + 1` up to its truncation: it is the golden ratio rounded down. */
  lemma ScaleIsGolden()
    ensures -0.0000000000000000000000000000000000000000000000000000000000000001
            < Scale * Scale - Scale - 1.0 < 0.0
  {
  }

  /**
    The rotation's cosine and sine are a unit vector only up to their 64 digits, so
    the rotation is not an isometry: it shrinks squared lengths by less than 10^-63.
   */
  lemma RotationNearlyOrthonormal()
    ensures -0.000000000000000000000000000000000000000000000000000000000000001
            < CosAngle * CosAngle + SinAngle * SinAngle - 1.0 < 0.0
  {
  }

  /** The golden recurrence's amplitude ratio is the inverse of its dilation and lies in `(0, 1)`. */
  lemma GoldenDecays()
    ensures 0.0 < Golden.ratio < 1.0 && Golden.ratio * Golden.scale == 1.0
  {
    ScaleBounds();
  }

  datatype Point = Point(x: real, y: real)

  /**
    One octave's change of coordinates as the loop performs it: rotate using the old
    `x` and `y` together, translate by the offsets, then dilate both coordinates.
   */
  function Step(t: Recurrence, p: Point): Point {
    var r := Point(p.x * t.cos - p.y * t.sin, p.x * t.sin + p.y * t.cos);
    var o := Point(r.x + t.offsetX, r.y + t.offsetY);
    Point(o.x * t.scale, o.y * t.scale)
  }

  /** The point at which octave `n` samples, starting from `p`. */
  function Orbit(t: Recurrence, p: Point, n: nat): Point {
    if n == 0 then p else Step(t, Orbit(t, p, n - 1))
  }

  /** The weight of octave `n`: one, multiplied by the amplitude ratio once per octave. */
  function Amplitude(t: Recurrence, n: nat): real {
    if n == 0 then 1.0 else Amplitude(t, n - 1) * t.ratio
  }

  /** The sum of the first `n` weights. */
  function Weight(t: Recurrence, n: nat): real {
    if n == 0 then 0.0 else Weight(t, n - 1) + Amplitude(t, n - 1)
  }

  /** `b^n`. */
  function Power(b: real, n: nat): real {
    if n == 0 then 1.0 else b * Power(b, n - 1)
  }

  /** The reference fractal sum: octaves `0 .. n-1` of `base` along the orbit of `p`. */
  function OctaveSum(base: (real, real) -> real, t: Recurrence, p: Point, n: nat): real {
    if n == 0 then 0.0
    else OctaveSum(base, t, p, n - 1) + base(Orbit(t, p, n - 1).x, Orbit(t, p, n - 1).y) * Amplitude(t, n - 1)
  }

  // One-step unfoldings, for proofs that hide the definitions to keep the
  // nonlinear arithmetic in them out of the solver's way.

  lemma StepUnfold(t: Recurrence, p: Point)
    ensures Step(t, p) == Point((p.x * t.cos - p.y * t.sin + t.offsetX) * t.scale,
                                (p.x * t.sin + p.y * t.cos + t.offsetY) * t.scale)
  {
  }

  lemma OrbitUnfold(t: Recurrence, p: Point, n: nat)
    requires n > 0
    ensures Orbit(t, p, n) == Step(t, Orbit(t, p, n - 1))
  {
  }

  lemma AmplitudeUnfold(t: Recurrence, n: nat)
    requires n > 0
    ensures Amplitude(t, n) == Amplitude(t, n - 1) * t.ratio
  {
  }

  lemma WeightUnfold(t: Recurrence, n: nat)
    requires n > 0
    ensures Weight(t, n) == Weight(t, n - 1) + Amplitude(t, n - 1)
  {
  }

  lemma OctaveSumUnfold(base: (real, real) -> real, t: Recurrence, p: Point, n: nat)
    requires n > 0
    ensures OctaveSum(base, t, p, n)
         == OctaveSum(base, t, p, n - 1) + base(Orbit(t, p, n - 1).x, Orbit(t, p, n - 1).y) * Amplitude(t, n - 1)
  {
  }

  /**
    `Fractal.Linear` and `Fractal.Cubic`: the loop both of them run. The sum, the
    sampling point and the amplitude are updated together at the end of each
    octave, as both Go methods do, and the result is the reference sum over `Octaves` octaves.
   */
  method Accumulate(base: (real, real) -> real, t: Recurrence, x: real, y: real) returns (sum: real)
    ensures sum == OctaveSum(base, t, Point(x, y), Octaves)
  {
    sum := 0.0;
    var c := 1.0;
    var px, py := x, y;
    var i := 0;
    while i < Octaves
      invariant 0 <= i <= Octaves
      invariant Point(px, py) == Orbit(t, Point(x, y), i)
      invariant c == Amplitude(t, i)
      invariant sum == OctaveSum(base, t, Point(x, y), i)
    {
      hide *;
      ghost var p := Point(px, py);
      sum := sum + base(px, py) * c;
      px, py := px * t.cos - py * t.sin, px * t.sin + py * t.cos;
      px, py := px + t.offsetX, py + t.offsetY;
      px := px * t.scale;
      py := py * t.scale;
      c := c * t.ratio;
      StepUnfold(t, p);
      OrbitUnfold(t, Point(x, y), i + 1);
      AmplitudeUnfold(t, i + 1);
      OctaveSumUnfold(base, t, Point(x, y), i + 1);
      i := i + 1;
    }
  }

  /** The bilinear sampler of a lattice. */
  function LinearSampler(v: ValueNoise.Value): (real, real) -> real {
    (x, y) => ValueNoise.Linear(v, x, y)
  }

  /** The bicubic sampler of a lattice. */
  function CubicSampler(v: ValueNoise.Value): (real, real) -> real {
    (x, y) => ValueNoise.Cubic(v, x, y)
  }

  /** The pointwise difference of the bilinear and bicubic samplers. */
  function Difference(v: ValueNoise.Value): (real, real) -> real {
    (x, y) => ValueNoise.Linear(v, x, y) - ValueNoise.Cubic(v, x, y)
  }

  /** `Fractal.Linear`: fifteen octaves of bilinear value noise along the golden recurrence. */
  method Linear(v: ValueNoise.Value, x: real, y: real) returns (r: real)
    ensures r == OctaveSum(LinearSampler(v), Golden, Point(x, y), Octaves)
  {
    r := Accumulate(LinearSampler(v), Golden, x, y);
  }

  /** `Fractal.Cubic`: fifteen octaves of bicubic value noise along the golden recurrence. */
  method Cubic(v: ValueNoise.Value, x: real, y: real) returns (r: real)
    ensures r == OctaveSum(CubicSampler(v), Golden, Point(x, y), Octaves)
  {
    r := Accumulate(CubicSampler(v), Golden, x, y);
  }

  // ---------------------------------------------------------------------------
  // Properties

  /** With a positive ratio every weight is positive. */
  lemma {:induction false} AmplitudePositive(t: Recurrence, n: nat)
    requires t.ratio > 0.0
    ensures Amplitude(t, n) > 0.0
  {
    if n > 0 {
      AmplitudePositive(t, n - 1);
    }
  }

  /** Octave `n` weighs `ratio^n`, which for the golden recurrence is `1 / scale^n`. */
  lemma {:induction false} AmplitudeIsInversePower(t: Recurrence, n: nat)
    requires t.ratio * t.scale == 1.0
    ensures Amplitude(t, n) == Power(t.ratio, n)
    ensures Amplitude(t, n) * Power(t.scale, n) == 1.0
  {
    if n > 0 {
      AmplitudeIsInversePower(t, n - 1);
      calc {
        Amplitude(t, n) * Power(t.scale, n);
        (Amplitude(t, n - 1) * t.ratio) * (t.scale * Power(t.scale, n - 1));
        (Amplitude(t, n - 1) * Power(t.scale, n - 1)) * (t.ratio * t.scale);
      }
    }
  }

  /** With a ratio in `(0, 1)` the weights fall strictly from octave to octave. */
  lemma {:induction false} AmplitudeDecreasing(t: Recurrence, m: nat, n: nat)
    requires 0.0 < t.ratio < 1.0
    requires m < n
    ensures Amplitude(t, n) < Amplitude(t, m)
    decreases n
  {
    AmplitudePositive(t, n - 1);
    AmplitudeUnfold(t, n);
    Shrink(Amplitude(t, n - 1), t.ratio, Amplitude(t, n));
    if m < n - 1 {
      AmplitudeDecreasing(t, m, n - 1);
    }
  }

  lemma Shrink(a: real, r: real, b: real)
    requires a > 0.0 && 0.0 < r < 1.0 && b == a * r
    ensures b < a
  {
  }

  /** The geometric sum of the weights: `(1 - r) * (1 + r + ... + r^(n-1)) == 1 - r^n`. */
  lemma {:induction false} GeometricWeight(t: Recurrence, n: nat)
    ensures Weight(t, n) * (1.0 - t.ratio) == 1.0 - Amplitude(t, n)
  {
    if n > 0 {
      GeometricWeight(t, n - 1);
    }
  }

  /** With a ratio in `(0, 1)` the total weight is positive and below `1 / (1 - ratio)` however many octaves are summed. */
  lemma WeightBounds(t: Recurrence, n: nat)
    requires 0.0 < t.ratio < 1.0
    requires n > 0
    ensures 0.0 < Weight(t, n)
    ensures Weight(t, n) * (1.0 - t.ratio) < 1.0
  {
    GeometricWeight(t, n);
    AmplitudePositive(t, n);
    WeightPositive(t, n);
  }

  lemma {:induction false} WeightPositive(t: Recurrence, n: nat)
    requires t.ratio > 0.0
    requires n > 0
    ensures Weight(t, n) > 0.0
  {
    AmplitudePositive(t, n - 1);
    if n > 1 {
      WeightPositive(t, n - 1);
    }
  }

  /** Starting one step further along the orbit is stepping once more. */
  lemma {:induction false} OrbitShift(t: Recurrence, p: Point, n: nat)
    ensures Orbit(t, Step(t, p), n) == Orbit(t, p, n + 1)
  {
    if n > 0 {
      OrbitShift(t, p, n - 1);
    }
  }

  /**
    Self-similarity: a sum of `n + 1` octaves is the first octave plus `ratio` times
    a sum of `n` octaves started one step along the orbit.
   */
  lemma {:induction false} OctaveSumSelfSimilar(base: (real, real) -> real, t: Recurrence, p: Point, n: nat)
    ensures OctaveSum(base, t, p, n + 1) == base(p.x, p.y) + t.ratio * OctaveSum(base, t, Step(t, p), n)
  {
    hide Step;
    if n > 0 {
      OctaveSumSelfSimilar(base, t, p, n - 1);
      OrbitShift(t, p, n - 1);
      OctaveSumUnfold(base, t, p, n + 1);
      OctaveSumUnfold(base, t, Step(t, p), n);
      AmplitudeUnfold(t, n);
      var q := Orbit(t, Step(t, p), n - 1);
      Distribute(base(p.x, p.y), t.ratio, OctaveSum(base, t, Step(t, p), n - 1), base(q.x, q.y), Amplitude(t, n - 1));
    }
  }

  lemma OctaveSumEmpty(base: (real, real) -> real, t: Recurrence, p: Point)
    ensures OctaveSum(base, t, p, 0) == 0.0
  {
  }

  lemma Distribute(b: real, r: real, s: real, c: real, a: real)
    ensures b + r * s + c * (a * r) == b + r * (s + c * a)
  {
  }

  /** A sampler bounded by `[lo, hi)` gives a sum of at least one octave bounded by `[lo, hi)` times the total weight. */
  lemma {:induction false} OctaveSumBounded(base: (real, real) -> real, t: Recurrence, p: Point, n: nat, lo: real, hi: real)
    requires t.ratio > 0.0
    requires n > 0
    requires forall x: real, y: real :: lo <= base(x, y) < hi
    ensures lo * Weight(t, n) <= OctaveSum(base, t, p, n) < hi * Weight(t, n)
  {
    hide *;
    var q := Orbit(t, p, n - 1);
    SampleBounded(base, q, lo, hi);
    AmplitudePositive(t, n - 1);
    OctaveSumUnfold(base, t, p, n);
    WeightUnfold(t, n);
    if n > 1 {
      OctaveSumBounded(base, t, p, n - 1, lo, hi);
    } else {
      OctaveSumEmpty(base, t, p);
      WeightEmpty(t);
    }
    BoundStep(lo, hi, OctaveSum(base, t, p, n - 1), Weight(t, n - 1), base(q.x, q.y), Amplitude(t, n - 1),
              OctaveSum(base, t, p, n), Weight(t, n));
  }

  lemma SampleBounded(base: (real, real) -> real, q: Point, lo: real, hi: real)
    requires forall x: real, y: real :: lo <= base(x, y) < hi
    ensures lo <= base(q.x, q.y) < hi
  {
  }

  lemma WeightEmpty(t: Recurrence)
    ensures Weight(t, 0) == 0.0
  {
  }

  /** Adding one weighted sample in `[lo, hi)` keeps a sum between `lo` and `hi` times its weight. */
  lemma BoundStep(lo: real, hi: real, s: real, w: real, b: real, a: real, s': real, w': real)
    requires lo * w <= s <= hi * w
    requires lo <= b < hi && a > 0.0
    requires s' == s + b * a && w' == w + a
    ensures lo * w' <= s' < hi * w'
  {
  }

  /** Two fractals over the same point differ by the fractal of the difference of their samplers. */
  lemma {:induction false} OctaveSumDifference(f: (real, real) -> real, g: (real, real) -> real, h: (real, real) -> real,
                                               t: Recurrence, p: Point, n: nat)
    requires forall x: real, y: real :: h(x, y) == f(x, y) - g(x, y)
    ensures OctaveSum(f, t, p, n) - OctaveSum(g, t, p, n) == OctaveSum(h, t, p, n)
  {
    var q := Orbit(t, p, n);
    assert h(q.x, q.y) == f(q.x, q.y) - g(q.x, q.y);
    hide *;
    if n == 0 {
      OctaveSumEmpty(f, t, p);
      OctaveSumEmpty(g, t, p);
      OctaveSumEmpty(h, t, p);
    } else {
      var q := Orbit(t, p, n - 1);
      var a := Amplitude(t, n - 1);
      assert h(q.x, q.y) == f(q.x, q.y) - g(q.x, q.y);
      OctaveSumDifference(f, g, h, t, p, n - 1);
      OctaveSumUnfold(f, t, p, n);
      OctaveSumUnfold(g, t, p, n);
      OctaveSumUnfold(h, t, p, n);
      Distribute3(f(q.x, q.y), g(q.x, q.y), a);
    }
  }

  lemma Distribute3(b: real, c: real, a: real)
    ensures (b - c) * a == b * a - c * a
  {
  }

  /** A lattice with samples in `[lo, hi)` gives a bilinear fractal in `[lo, hi)` times the total weight. */
  lemma LinearBounded(v: ValueNoise.Value, x: real, y: real, lo: real, hi: real)
    requires forall k | 0 <= k < |v| :: lo <= v[k] < hi
    ensures lo * Weight(Golden, Octaves) <= OctaveSum(LinearSampler(v), Golden, Point(x, y), Octaves)
                                         < hi * Weight(Golden, Octaves)
  {
    hide *;
    OctavesPositive();
    LinearSamplerBounded(v, lo, hi);
    GoldenDecays();
    OctaveSumBounded(LinearSampler(v), Golden, Point(x, y), Octaves, lo, hi);
  }

  /** The bilinear sampler stays within the bounds of the lattice's samples. */
  lemma LinearSamplerBounded(v: ValueNoise.Value, lo: real, hi: real)
    requires forall k | 0 <= k < |v| :: lo <= v[k] < hi
    ensures forall a: real, b: real :: lo <= LinearSampler(v)(a, b) < hi
  {
    forall a: real, b: real
      ensures lo <= LinearSampler(v)(a, b) < hi
    {
      ValueNoise.LinearBounded(v, a, b, lo, hi);
    }
  }

  /** The bilinear and bicubic fractals sample the same points with the same weights: they differ only by their samplers. */
  lemma LinearMinusCubic(v: ValueNoise.Value, x: real, y: real)
    ensures OctaveSum(LinearSampler(v), Golden, Point(x, y), Octaves) - OctaveSum(CubicSampler(v), Golden, Point(x, y), Octaves)
         == OctaveSum(Difference(v), Golden, Point(x, y), Octaves)
  {
    forall a: real, b: real
      ensures Difference(v)(a, b) == LinearSampler(v)(a, b) - CubicSampler(v)(a, b)
    {
    }
    hide *;
    OctaveSumDifference(LinearSampler(v), CubicSampler(v), Difference(v), Golden, Point(x, y), Octaves);
  }

  /** The change of coordinates is affine: differences of points are rotated and dilated, and the offsets cancel. */
  lemma StepDifference(t: Recurrence, p: Point, q: Point)
    ensures Step(t, p).x - Step(t, q).x == t.scale * ((p.x - q.x) * t.cos - (p.y - q.y) * t.sin)
    ensures Step(t, p).y - Step(t, q).y == t.scale * ((p.x - q.x) * t.sin + (p.y - q.y) * t.cos)
  {
  }
}
