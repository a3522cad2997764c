# hyper-terrain noise core in Dafny

This project models the terrain generator's noise core:

- the lattice index arithmetic of `pkg/noise/constants.go`;
- bilinear and bicubic value noise on a 512×512 toroidal lattice (`Value.Fill`, `Value.Linear`, `Value.Cubic`);
- the 4×4 matrix helpers that hold the cubic Hermite basis (`pkg/fixed/matrix.go`);
- the fifteen-octave fractal sum over either sampler (`Fractal.Linear`, `Fractal.Cubic`);
- the 16- and 32-bit fixed-point kernel (`pkg/fixed/fixed.go`).

Modules:

| file | module | models |
|---|---|---|
| `bits.dfy` | `Bits` | Go's `&` with a nonnegative mask (`AndMask`), and the proof that a low mask is a Euclidean remainder, also for negative integers |
| `lattice.dfy` | `Lattice` | `shift`, `size`, `intMask`, `size2`, `int2Mask`; the column and row masks; the flat index |
| `matrices.dfy` | `Matrices` | `V4`, `Matrix`, `Times`, `TimesV4`, `TimesMatrix`, `Dot`, `TimesM1`, `TimesM2` |
| `valuenoise.dfy` | `ValueNoise` | `Value` and `Fill`; `Linear` and `Cubic`, proved equal for every real point to references over the floor cell and the periodic lookup `Lookup`: `Bilinear`, and `Bicubic`, whose Hermite evaluation the `Matrices` lemmas characterise |
| `fractal.dfy` | `Fractal` | the constants, the octave loop (`Accumulate`), `Fractal.Linear`, `Fractal.Cubic`, and the reference sum `OctaveSum` |
| `fixed.dfy` | `Fixed` | `F16`, `F32`, the constants, `Int`, `F16.Int` (`Integral`), `Remainder`, `Times`, `F32.F16` (`ToF16`), `DividedBy`, `Invert` |

Modelling choices:

- Floating-point values are exact reals.
- `math.Modf` is truncation toward zero (`Trunc`). `Split` also applies the correction `Value.Linear` and `Value.Cubic` make for negative inputs.
- A masked read `v.noise[(y1+size)&int2Mask + …]` is a sequence index whose bounds follow from the mask's contract.
- The random source of `Fill` is a parameter: the sequence of numbers it hands out.
- The fractal loop is written once, as `Accumulate`. Two things are parameters:
  - the sampler, so `Fractal.Linear` and `Fractal.Cubic` differ only in the sampler they pass;
  - a `Recurrence` record, which holds the rotation, offsets, dilation and amplitude ratio.

  `Golden` holds the values `fractal.go` fixes.
- The doc comment of `TimesM2` calls its matrix the inverse of the value matrix. The code applies the same matrix as `TimesM1`, from the other side. `Matrices.BasisTranspose` states that relation, and `Matrices.HermiteCoefficients` states what the coefficients mean.
- Unsigned 64-bit words are integers in `[0, 2^64)`, and their wrap-around is `% 2^64`. Go's `int` is `GoInt`, the signed 64-bit range.

## Model

| member | source | states |
|---|---|---|
| Bits.AndMask | pkg/noise/value.go:44 | Go's `&` of an `int` and a nonnegative mask, bit by bit in two's complement, negatives included; the result never exceeds the mask. `Bits.LowMaskIsMod` and `Bits.ShiftedMask` give its meaning for the lattice masks |
| Bits.LowMaskIsMod | pkg/noise/constants.go:22-24 | `x & (2^k - 1)` is the Euclidean remainder of `x` modulo `2^k`, for every integer `x`, negatives included |
| Bits.ShiftedMask | pkg/noise/constants.go:29-31 | a mask shifted left by `b` bits selects the bits of `x >> b` and shifts them back |
| Lattice.ConstantsArePowersOfTwo | pkg/noise/constants.go:12-31 | for the constants `Shift`, `Size`, `IntMask`, `Size2` and `Int2Mask`: `size` is `2^shift`, `intMask` is `size - 1`, `size2` is `size * size`, and `int2Mask` is `intMask` shifted left by `shift` |
| Lattice.MaskCol | pkg/noise/value.go:44 | `x & intMask` is `x mod size`, which lies in `[0, size)`, for negative `x` as well |
| Lattice.MaskRow | pkg/noise/value.go:61 | `x & int2Mask` is the row of `x` reduced modulo `size`, shifted back into place: a multiple of `size` below `size2` |
| Lattice.RowWrap | pkg/noise/constants.go:29-31 | masking a row offset `r << shift` wraps the row `r` modulo `size` |
| Lattice.Index | pkg/noise/value.go:12-15 | the flat index `y << shift + x` lies in `[0, size2)`; the column mask reads `x` back and the shift reads `y` back |
| Lattice.IndexSurjective | pkg/noise/value.go:12-15 | every flat index is the index of the column and row read off it |
| ValueNoise.Fill | pkg/noise/value.go:24-28 | the loop stores the `k`-th draw at index `k`, for every index of the lattice |
| ValueNoise.WrapIsMod | pkg/noise/value.go:33 | the periodic wrap of a lattice coordinate is its Euclidean remainder modulo `size` |
| ValueNoise.LookupPeriodic | pkg/noise/value.go:33 | shifting a lattice point by whole periods reads the same sample |
| ValueNoise.Trunc | pkg/noise/value.go:36-37 | the integral part from `math.Modf` is the integer next to `x` on the side of zero |
| ValueNoise.Split | pkg/noise/value.go:36-52 | the cell index plus the fraction is `x`, and the fraction lies in `[0, 1]`. It reaches 1 exactly at negative integers, which land at the top of the cell below. Otherwise the index is the floor of `x`. The corollaries `SplitIsFloor` and `SplitAtNegativeInteger`, used by `SplitCellX` and `SplitCellY`, restate these two cases in terms of `x.Floor` |
| ValueNoise.ColumnNeighbours | pkg/noise/value.go:106-114 | masking after each step to a neighbouring column is masking once, after the whole step |
| ValueNoise.RowNeighbours | pkg/noise/value.go:107-115 | masking after each step to a neighbouring row is masking the row once, after the whole step |
| ValueNoise.NeighboursWrap | pkg/noise/value.go:105-115 | the neighbour of the last column or row is the first one, and the reverse |
| ValueNoise.Linear | pkg/noise/value.go:34-73 | `Value.Linear` as written: the `Modf` split with its negative correction, the masked corner reads and the four-weight blend. It has no contract of its own; `ValueNoise.LinearIsBilinear` and the lemmas after it state what it computes |
| ValueNoise.Blend | pkg/noise/value.go:68-72 | the four-weight formula of `Value.Linear` as written; `ValueNoise.BilinearWeights` shows it is two nested linear interpolations |
| ValueNoise.BilinearWeights | pkg/noise/value.go:68-72 | the four corner weights of the blend in `Value.Linear` are the tensor product of two linear interpolations |
| ValueNoise.LinearCornerReads | pkg/noise/value.go:59-62 | the four masked reads are the periodic lookups of the cell's corners |
| ValueNoise.LinearReadsCell | pkg/noise/value.go:34-73 | `Linear` interpolates bilinearly in the split cell at the split fraction |
| ValueNoise.LinearIsBilinear | pkg/noise/value.go:34-73 | `Linear` equals the textbook bilinear interpolant at the floor cell and fractional part, for every real `x` and `y` |
| ValueNoise.CellLinearSeams | pkg/noise/value.go:40-50 | neighbouring cells agree on their shared edge, so the top of the cell below can stand in for the bottom of the next |
| ValueNoise.LinearAtLatticePoint | pkg/noise/value.go:34-73 | at a lattice point, `Linear` returns that point's sample |
| ValueNoise.LinearPeriodic | pkg/noise/value.go:33 | `Linear` at `(x + a·size, y + b·size)` equals `Linear` at `(x, y)` |
| ValueNoise.LinearInCell | pkg/noise/value.go:34-73 | inside any cell, `Linear` is that cell's bilinear interpolant |
| ValueNoise.LinearAffineInX | pkg/noise/value.go:68-72 | between two integral `x`, `Linear` is linear in `x` with the values at the two ends |
| ValueNoise.LinearAffineInY | pkg/noise/value.go:68-72 | between two integral `y`, `Linear` is linear in `y` with the values at the two ends |
| ValueNoise.LinearMonotoneInX | pkg/noise/value.go:32 | between two integral `x`, `Linear` is monotonic in `x`, in the direction of its end values |
| ValueNoise.LinearMonotoneInY | pkg/noise/value.go:32 | between two integral `y`, `Linear` is monotonic in `y`, in the direction of its end values |
| ValueNoise.LinearBetweenCorners | pkg/noise/value.go:64-72 | `Linear` lies between the smallest and the largest of its four corner samples |
| ValueNoise.LinearBounded | pkg/noise/value.go:64-72 | a lattice with all samples in `[lo, hi)` gives `Linear` values in `[lo, hi)` |
| ValueNoise.Cubic | pkg/noise/value.go:82-170 | `Value.Cubic` as written: the split, the sixteen masked reads, the descriptor of differences and the Hermite evaluation. It has no contract of its own; `ValueNoise.CubicIsBicubic` and the lemmas after it state what it computes |
| ValueNoise.Descriptor | pkg/noise/value.go:135-166 | the matrix `Value.Cubic` builds from the 4×4 block of samples; `ValueNoise.DescriptorIsPatch` shows it holds the corner values and the central-difference slopes |
| ValueNoise.Interpolate | pkg/noise/value.go:160-169 | the Hermite evaluation at the end of `Value.Cubic`: `TimesM1` of the powers of `xr`, times the descriptor, `TimesM2`, dotted with the powers of `yr`. `ValueNoise.InterpolateInS`, `ValueNoise.InterpolateStepS`, `ValueNoise.InterpolateStepT` and the seam lemmas state what it computes |
| ValueNoise.CubicReadsWindow | pkg/noise/value.go:105-133 | the sixteen masked reads of `Cubic` are the 4×4 neighbourhood of the split cell |
| ValueNoise.WindowReads | pkg/noise/value.go:105-133 | the masked indices `x0..x3` and `y0..y3` read the samples one column or row below, at, and one and two above the cell corner |
| ValueNoise.DescriptorIsPatch | pkg/noise/value.go:135-166 | the matrix built from the neighbourhood holds the corner values, the central-difference slopes in `y` and `x`, and the mixed slopes of the cell |
| ValueNoise.CubicIsBicubic | pkg/noise/value.go:82-170 | `Cubic` equals the bicubic Hermite patch of the floor cell at the fractional part, for every real `x` and `y` |
| ValueNoise.CubicInCell | pkg/noise/value.go:82-170 | inside any cell, `Cubic` is that cell's bicubic patch |
| ValueNoise.CubicAtLatticePoint | pkg/noise/value.go:82-170 | at a lattice point, `Cubic` returns that point's sample |
| ValueNoise.CubicPeriodic | pkg/noise/value.go:105-133 | `Cubic` is periodic with period `size` in both coordinates |
| ValueNoise.HermiteIsCatmullRom | pkg/fixed/matrix.go:55-64 | a Hermite cubic whose end slopes are central differences is the Catmull-Rom spline through four samples |
| ValueNoise.CubicOnLatticeRow | pkg/noise/value.go:159-169 | along an integral `y`, `Cubic` is the Catmull-Rom spline through the four nearest samples of that row |
| ValueNoise.CubicOnLatticeColumn | pkg/noise/value.go:159-169 | along an integral `x`, `Cubic` is the Catmull-Rom spline through the four nearest samples of that column |
| ValueNoise.InterpolateRowSeam | pkg/noise/value.go:159-169 | two patches whose shared row of values agrees meet without a jump in `s` |
| ValueNoise.InterpolateInS | pkg/noise/value.go:160-169 | along any row `t` the patch is a cubic in `s`, and `SlopeS` is that cubic's slope |
| ValueNoise.InterpolateStepS | pkg/noise/value.go:160-169 | `SlopeS` is the derivative of the patch in `s`: a step `h` changes the patch by `h` times `SlopeS` plus `h²` times a bounded term |
| ValueNoise.InterpolateStepT | pkg/noise/value.go:160-169 | `SlopeT` is the derivative of the patch in `t`: a step `h` changes the patch by `h` times `SlopeT` plus `h²` times a bounded term |
| ValueNoise.SlopeRowSeam | pkg/noise/value.go:159-169 | two patches whose shared row of `x`-slopes agrees meet with equal slope in `s` |
| ValueNoise.BicubicSmoothInX | pkg/noise/value.go:135-169 | across a vertical cell edge the bicubic surface is continuous and so is its slope in `x` |
| ValueNoise.BicubicSmoothInY | pkg/noise/value.go:135-169 | across a horizontal cell edge the bicubic surface is continuous and so is its slope in `y` |
| ValueNoise.BicubicSlopeXAtLatticePoint | pkg/noise/value.go:148-152 | at a lattice point the slope in `x` of the surface is the central difference of the samples |
| ValueNoise.BicubicSlopeYAtLatticePoint | pkg/noise/value.go:135-143 | at a lattice point the slope in `y` of the surface is the central difference of the samples |
| Matrices.Dot | pkg/fixed/matrix.go:51-53 | the dot product of two four-vectors, as written; `Matrices.DotSymmetric` and `Matrices.DotTimesMatrix` state its laws |
| Matrices.Times | pkg/fixed/matrix.go:7-29 | the 4×4 product as written, entry by entry; `Matrices.TimesColumns` and `Matrices.TimesMatrixAssociative` state that it is the row-major matrix product |
| Matrices.TimesV4 | pkg/fixed/matrix.go:31-38 | entry `i` of `m * v` is row `i` of `m` dotted with `v` |
| Matrices.TimesMatrix | pkg/fixed/matrix.go:42-49 | entry `j` of `v * m` is `v` dotted with column `j` of `m` |
| Matrices.DotSymmetric | pkg/fixed/matrix.go:51-53 | `Dot` is symmetric |
| Matrices.DotTimesMatrix | pkg/fixed/matrix.go:31-53 | `(v * m) · w == v · (m * w)` |
| Matrices.TimesColumns | pkg/fixed/matrix.go:7-29 | each column of `m * b` is `m` times that column of `b`: `Times` is the row-major product |
| Matrices.TimesMatrixAssociative | pkg/fixed/matrix.go:7-49 | multiplying a row vector by `a` and then by `b` is multiplying it by `a * b` |
| Matrices.TimesM1 | pkg/fixed/matrix.go:55-64 | a row vector times the Hermite basis matrix, as written; the `Matrices.Basis…` lemmas and `Matrices.HermitePartitionOfUnity` state what it computes |
| Matrices.TimesM2 | pkg/fixed/matrix.go:66-75 | the same matrix times a column vector, as written; `Matrices.HermiteCoefficients` states what it computes |
| Matrices.BasisTranspose | pkg/fixed/matrix.go:55-75 | `TimesM1(v) · w == v · TimesM2(w)`: both apply one matrix, from the row side and from the column side |
| Matrices.BasisValueAtZero | pkg/fixed/matrix.go:55-64 | the Hermite basis at 0 is the first unit vector: only the first polynomial is 1 there |
| Matrices.BasisValueAtOne | pkg/fixed/matrix.go:55-64 | the Hermite basis at 1 is the second unit vector |
| Matrices.BasisSlopeAtZero | pkg/fixed/matrix.go:55-64 | the slopes of the basis at 0 are the third unit vector |
| Matrices.BasisSlopeAtOne | pkg/fixed/matrix.go:55-64 | the slopes of the basis at 1 are the fourth unit vector |
| Matrices.HermitePartitionOfUnity | pkg/fixed/matrix.go:57-64 | the two value basis polynomials sum to 1 everywhere |
| Matrices.HermiteCoefficients | pkg/fixed/matrix.go:66-75 | `c == TimesM2(w)` exactly when the cubic with coefficients `c` has values `w[0]`, `w[1]` and slopes `w[2]`, `w[3]` at 0 and 1. The helpers `HermiteValueAtZero`, `HermiteValueAtOne`, `HermiteSlopeAtZero` and `HermiteSlopeAtOne` state the forward direction one end condition at a time |
| Matrices.PowersDerivative | pkg/noise/value.go:160-168 | the slope vector `[0, 1, 2t, 3t²]` is the derivative of `[1, t, t², t³]`: a step `h` changes a cubic by `h` times its slope plus a term of order `h²` |
| Fractal.Step | pkg/noise/fractal.go:30-33 | one octave's change of coordinates as written: rotate by `(cosAngle, sinAngle)`, add `(offsetX, offsetY)`, multiply by `scale`. `Fractal.OrbitShift` and `Fractal.StepDifference` state its laws |
| Fractal.ScaleBounds | pkg/noise/fractal.go:8-9 | for the constants `Scale` and `InvScale`: the scale lies in `(1, 2)`, and the amplitude ratio is its inverse, in `(0, 1)` |
| Fractal.ScaleIsGolden | pkg/noise/fractal.go:8 | the scale solves `s² = s + 1` to within `10^-64`, from below |
| Fractal.RotationNearlyOrthonormal | pkg/noise/fractal.go:10-11 | `cos² + sin²` is below 1 by less than `10^-63`, so the rotation is not exactly an isometry |
| Fractal.Accumulate | pkg/noise/fractal.go:25-37 | the loop's running sum, point and amplitude give exactly the reference fifteen-octave sum along the orbit of the recurrence |
| Fractal.Linear | pkg/noise/fractal.go:39-51 | `Fractal.Linear` is the fifteen-octave reference sum of the bilinear sampler along the golden recurrence |
| Fractal.Cubic | pkg/noise/fractal.go:25-37 | `Fractal.Cubic` is the fifteen-octave reference sum of the bicubic sampler along the golden recurrence |
| Fractal.AmplitudePositive | pkg/noise/fractal.go:27-34 | with a positive ratio every octave's weight is positive |
| Fractal.AmplitudeIsInversePower | pkg/noise/fractal.go:27-34 | octave `n` has weight `ratio^n`, and that weight times `scale^n` is 1 |
| Fractal.AmplitudeDecreasing | pkg/noise/fractal.go:34 | the weights fall strictly from octave to octave |
| Fractal.GeometricWeight | pkg/noise/fractal.go:27-34 | the total weight of `n` octaves times `(1 - ratio)` is `1 - ratio^n` |
| Fractal.WeightBounds | pkg/noise/fractal.go:27-34 | the total weight is positive and stays below `1 / (1 - ratio)` however many octaves are summed |
| Fractal.OrbitShift | pkg/noise/fractal.go:30-33 | starting one step further along the orbit is stepping once more |
| Fractal.OctaveSumSelfSimilar | pkg/noise/fractal.go:28-35 | `n + 1` octaves are the first octave plus `ratio` times `n` octaves started one step along the orbit |
| Fractal.OctaveSumBounded | pkg/noise/fractal.go:29 | a sampler with values in `[lo, hi)` gives a sum in `[lo, hi)` times the total weight |
| Fractal.OctaveSumDifference | pkg/noise/fractal.go:25-51 | two fractal sums over one point differ by the fractal sum of the difference of their samplers |
| Fractal.LinearBounded | pkg/noise/fractal.go:39-51 | a lattice with samples in `[lo, hi)` gives a bilinear fractal in `[lo, hi)` times the total weight of fifteen octaves |
| Fractal.LinearMinusCubic | pkg/noise/fractal.go:25-51 | the two fractals sample the same points with the same weights, so they differ by the fractal sum of the difference of the two samplers |
| Fractal.StepDifference | pkg/noise/fractal.go:30-33 | one octave's change of coordinates is affine: the offsets cancel from differences, which are rotated and dilated |
| Fixed.ConstantsArePowersOfTwo | pkg/fixed/fixed.go:8-31 | for the constants of the kernel: `One16 = 2^16`, `Half16 = 2^15`, `One32 = 2^32`, the zeros are 0, and the remainder masks are `2^16 - 1` and `2^32 - 1` |
| Fixed.Int | pkg/fixed/fixed.go:40-43 | `Int(i)` is congruent to `i · 2^16` modulo 2^64, and equal to it when `0 <= i < 2^48` |
| Fixed.Integral | pkg/fixed/fixed.go:61-64 | `f.Int()` is the floor of `f / 2^16`, a nonnegative integer below 2^48 |
| Fixed.Remainder | pkg/fixed/fixed.go:73-78 | the remainder is below `One16` and differs from `f` by a multiple of `2^16` |
| Fixed.Times | pkg/fixed/fixed.go:55-59 | the product word is congruent to the integer product modulo 2^64, and equal to it when the product fits |
| Fixed.ToF16 | pkg/fixed/fixed.go:80-83 | narrowing gives the floor of `f / 2^16` |
| Fixed.DividedBy | pkg/fixed/fixed.go:90-93 | for a nonzero divisor the result is the floor of `f / f2`: `r·f2 <= f < (r+1)·f2` |
| Fixed.Invert | pkg/fixed/fixed.go:50-53 | for nonzero `f` the result is the floor of `2^32 / f`: `r·f <= One32 < (r+1)·f` |
| Fixed.IntIntegral | pkg/fixed/fixed.go:40-64 | `Int(i).Int()` is `i mod 2^48`, for every `int` |
| Fixed.IntRoundTrip | pkg/fixed/fixed.go:40-64 | `Int(i).Int() == i` for `0 <= i < 2^48` |
| Fixed.IntOfNegative | pkg/fixed/fixed.go:34-43 | a negative `i` above `-2^48` comes back as `i + 2^48`: an `F16` cannot hold a negative number |
| Fixed.RemainderIsMod | pkg/fixed/fixed.go:73-78 | `f & remainderMask16` is `f mod 2^16` |
| Fixed.IntRemainder | pkg/fixed/fixed.go:40-78 | a widened integer has no fractional bits |
| Fixed.RemainderIdempotent | pkg/fixed/fixed.go:73-78 | taking the remainder twice is taking it once |
| Fixed.Decompose | pkg/fixed/fixed.go:40-78 | every `F16` is `Int(f.Int()) + f.Remainder()` |
| Fixed.NarrowTimesOne | pkg/fixed/fixed.go:55-83 | `f.Times(One16).F16() == f` for `f < 2^48` |
| Fixed.DividedByUndoesTimes | pkg/fixed/fixed.go:55-93 | `f.Times(f2).DividedBy(f2) == f` for nonzero `f2` when the product fits |
| Fixed.InvertOne | pkg/fixed/fixed.go:50-53 | `One16.Invert() == One16` |
| Fixed.IntValue | pkg/fixed/fixed.go:34-43 | for `0 <= i < 2^48`, `Int(i)` stands for the number `i` |
| Fixed.ValueSplits | pkg/fixed/fixed.go:61-78 | an `F16` stands for its integral part plus the value of its remainder, and that value lies in `[0, 1)` |
| Fixed.TimesValue | pkg/fixed/fixed.go:55-59 | when the product fits, the `F32` result stands for the product of the two `F16` values |
| Fixed.ToF16Value | pkg/fixed/fixed.go:80-83 | narrowing rounds the value down to a multiple of `2^-16` |
| Fixed.DividedByValue | pkg/fixed/fixed.go:90-93 | `DividedBy` rounds the quotient of the values down to a multiple of `2^-16` |

## Left out

- Floating point. Every `float64` is an exact real: rounding, overflow to infinity, NaN and negative zero are not modelled. The real-number identities (periodicity, interpolation, fractal sums) hold for the model, not bit for bit in `float64`.
- `Value.Linear` and `Value.Cubic` for coordinates of magnitude at least 2^63: there `int(xi)` is implementation-defined in Go. The model truncates every real exactly.
- `Fill`'s random source: `rand.Rand.Float64` is replaced by the sequence of numbers it returns. No property of the draws, such as their `[0, 1)` range, is assumed.
- `Value.LinearFloat` and `Value.CubicFloat` only forward to `Linear` and `Cubic`, so they are modelled by those.
- `revShift` in `pkg/noise/constants.go` is not used by the core.
- The fractal constants are exact reals, not the `float64` values they round to at run time.
- The rotation is not proved to be an isometry. `Fractal.RotationNearlyOrthonormal` shows it is not exactly one.
- The `Transform` type in `pkg/noise/fractal.go` is unused by the fractal sums.
- Fractal.LinearBounded: only the bilinear fractal gets a bound from the samples. The bicubic sampler can overshoot its samples, so no such bound holds for `Fractal.Cubic`.
- `fixed.Float`, `F16.Float64` and `F32.Float64` are float conversions. The model gives the exact meaning of a word as `Value16`/`Value32` instead.
- `remainderMask32` is defined and shown to be `2^32 - 1`, but no operation of the kernel uses it.
- The divide-by-zero panic of `DividedBy` and `Invert` is a precondition (nonzero divisor), not a modelled error path.
- The command line, PNG output and contour thresholding (`app/cmd/root.go`), `pkg/terrain/water.go`, `pkg/vector/vectors.go`, the benchmarks and the tests are outside the core.
