/**
  Value noise on the toroidal lattice of `Lattice`: a grid of `Size2` samples,
  read back by bilinear (`Linear`) or bicubic (`Cubic`) interpolation. Floating
  point is modelled by exact reals.

  `Linear` and `Cubic` follow `Value.Linear` and `Value.Cubic` step by step (the
  `Modf` split, the floor-style correction, the masked reads). Each is proved
  equal, for every real coordinate, to a reference definition stated directly over
  the floor of the coordinate and the periodic lookup `Lookup`. The promised
  properties are then proved about the reference.
 */
module ValueNoise {
  import opened Bits
  import opened Lattice
  import opened Matrices

  /** The lattice samples, row-major: the column in the low bits of the index, the row above it. */
  type Value = noise: seq<real> | |noise| == Size2 witness seq(Size2, k => 0.0)

  /**
    Fills the lattice. The random source is a parameter: `draws[k]` is the `k`-th
    number the generator hands out, and the loop stores the draws in index order.
   */
  method Fill(draws: seq<real>) returns (v: Value)
    requires |draws| == Size2
    ensures forall k | 0 <= k < Size2 :: v[k] == draws[k]
  {
    var noise: seq<real> := [];
    var i := 0;
    while i < Size2
      invariant 0 <= i <= Size2
      invariant noise == draws[..i]
    {
      noise := noise + [draws[i]];
      i := i + 1;
    }
    assert noise == draws;
    v := noise;
  }

  /**
    A coordinate brought into `[0, size)` by whole periods: the reference for the
    toroidal wrap that `Value.Linear` and `Value.Cubic` perform with masks.
   */
  function Wrap(x: int): (r: int)
    ensures 0 <= r < Size
    decreases if x < 0 then Size - x else x
  {
    if x < 0 then Wrap(x + Size) else if x >= Size then Wrap(x - Size) else x
  }

  /** Wrapping is the Euclidean remainder by the lattice size. */
  lemma {:induction false} WrapIsMod(x: int)
    ensures Wrap(x) == x % Size
    decreases if x < 0 then Size - x else x
  {
    if x < 0 {
      WrapIsMod(x + Size);
      DivModUnique(x, Size, (x + Size) / Size - 1, (x + Size) % Size);
    } else if x >= Size {
      WrapIsMod(x - Size);
      DivModUnique(x, Size, (x - Size) / Size + 1, (x - Size) % Size);
    } else {
      DivModUnique(x, Size, 0, x);
    }
  }

  /** Wrapping ignores whole periods. */
  lemma WrapPeriodic(x: int, a: int)
    ensures Wrap(x + a * Size) == Wrap(x)
  {
    WrapIsMod(x);
    WrapIsMod(x + a * Size);
    DivModUnique(x + a * Size, Size, x / Size + a, x % Size);
  }

  /** The sample at lattice point `(x, y)`, wrapping both coordinates around the torus. */
  function Lookup(v: Value, x: int, y: int): real {
    v[Wrap(y) * Size + Wrap(x)]
  }

  /** Shifting a lattice point by whole periods reads the same sample. */
  lemma LookupPeriodic(v: Value, x: int, y: int, a: int, b: int)
    ensures Lookup(v, x + a * Size, y + b * Size) == Lookup(v, x, y)
  {
    WrapPeriodic(x, a);
    WrapPeriodic(y, b);
  }

  // ---------------------------------------------------------------------------
  // Splitting a coordinate into a cell and a fraction

  /** `math.Modf`'s integral part: truncation toward zero. */
  function Trunc(x: real): (n: int)
    ensures x >= 0.0 ==> n as real <= x < n as real + 1.0
    ensures x < 0.0 ==> n as real - 1.0 < x <= n as real
  {
    if x >= 0.0 then x.Floor else -((-x).Floor)
  }

  /** A lattice cell (its lower-left corner, before wrapping) and the position within it. */
  datatype Cell = Cell(index: int, frac: real)

  /**
    `math.Modf` followed by the correction for negative inputs: the cell below and a
    fraction one higher. A negative integer therefore lands at fraction 1 of the
    cell below it rather than at fraction 0 of its own cell.
   */
  function Split(x: real): (c: Cell)
    ensures c.index as real + c.frac == x
    ensures 0.0 <= c.frac <= 1.0
    ensures x >= 0.0 ==> c.frac < 1.0
    ensures x < 0.0 ==> 0.0 < c.frac
    ensures c.frac == 1.0 <==> x < 0.0 && x == x.Floor as real
    ensures c.index == if c.frac == 1.0 then x.Floor - 1 else x.Floor
  {
    var xi := Trunc(x);
    var xr := x - xi as real;
    assert x < 0.0 && x == x.Floor as real ==> (-x).Floor == -x.Floor;
    if xi < 0 || xr < 0.0 then Cell(xi - 1, 1.0 + xr) else Cell(xi, xr)
  }

  // ---------------------------------------------------------------------------
  // Wrapped neighbours

  /** Reducing before a step and reducing after it agree. */
  lemma ModStep(a: int, d: int)
    ensures (a % Size + d) % Size == (a + d) % Size
  {
    var q := a / Size;
    var f := (a % Size + d) / Size;
    var e := (a % Size + d) % Size;
    assert a + d == (q + f) * Size + e;
    DivModUnique(a + d, Size, q + f, e);
  }

  /** The neighbouring columns of a masked column are the masked neighbouring columns. */
  lemma ColumnNeighbours(i: int)
    ensures MaskCol(MaskCol(i) - 1) == MaskCol(i - 1)
    ensures MaskCol(MaskCol(i) + 1) == MaskCol(i + 1)
    ensures MaskCol(MaskCol(MaskCol(i) + 1) + 1) == MaskCol(i + 2)
  {
    ModStep(i, -1);
    ModStep(i, 1);
    ModStep(i + 1, 1);
  }

  /** Row offsets stepped by `±size` and masked with `int2Mask` are the neighbouring rows. */
  lemma RowNeighbours(j: int)
    ensures MaskRow(MaskCol(j) * Size - Size) == MaskCol(j - 1) * Size
    ensures MaskRow(MaskCol(j) * Size + Size) == MaskCol(j + 1) * Size
    ensures MaskRow(MaskRow(MaskCol(j) * Size + Size) + Size) == MaskCol(j + 2) * Size
  {
    ColumnNeighbours(j);
    RowWrap(MaskCol(j) - 1);
    RowWrap(MaskCol(j) + 1);
    RowWrap(MaskCol(j + 1) + 1);
  }

  /** Right of the last column is column 0, and left of column 0 is the last column; rows alike. */
  lemma NeighboursWrap()
    ensures MaskCol(Size - 1 + 1) == 0 && MaskCol(0 - 1) == Size - 1
    ensures MaskRow((Size - 1) * Size + Size) == 0 && MaskRow(0 - Size) == (Size - 1) * Size
  {
    RowWrap(Size);
    RowWrap(-1);
  }

  // ---------------------------------------------------------------------------
  // Bilinear sampling

  /** `Value.Linear`, step by step: the `Modf` split, the masked corner reads and the four-weight blend. */
  function Linear(v: Value, x: real, y: real): real {
    var cx := Split(x);
    var cy := Split(y);
    var xr := cx.frac;
    var yr := cy.frac;
    var x1 := MaskCol(cx.index);
    var y1 := MaskCol(cy.index) * Size;
    var bottomLeft := v[y1 + x1];
    var bottomRight := v[y1 + MaskCol(x1 + 1)];
    var upperLeft := v[MaskRow(y1 + Size) + x1];
    var upperRight := v[MaskRow(y1 + Size) + MaskCol(x1 + 1)];
    Blend(bottomLeft, bottomRight, upperLeft, upperRight, xr, yr)
  }

  /** The weighted sum of four corners with which `Value.Linear` ends. */
  function Blend(bottomLeft: real, bottomRight: real, upperLeft: real, upperRight: real,
                 xr: real, yr: real): real
  {
    var xryr := xr * yr;
    xryr * upperRight + (yr - xryr) * upperLeft + (xr - xryr) * bottomRight
      + (1.0 + xryr - xr - yr) * bottomLeft
  }

  /** Linear interpolation from `a` (at 0) to `b` (at 1). */
  function Lerp(a: real, b: real, s: real): real {
    (1.0 - s) * a + s * b
  }

  /** Bilinear interpolation in the cell with lower-left corner `(i, j)`, at offset `(s, t)`. */
  function CellLinear(v: Value, i: int, s: real, j: int, t: real): real {
    Lerp(Lerp(Lookup(v, i, j), Lookup(v, i + 1, j), s),
         Lerp(Lookup(v, i, j + 1), Lookup(v, i + 1, j + 1), s), t)
  }

  /** The textbook bilinear interpolant of the periodic lattice: the floor cell, the fractional offset. */
  function Bilinear(v: Value, x: real, y: real): real {
    CellLinear(v, x.Floor, x - x.Floor as real, y.Floor, y - y.Floor as real)
  }

  /** The four weights of the blend in `Value.Linear` are the tensor product of two linear interpolations. */
  lemma BilinearWeights(v: Value, i: int, s: real, j: int, t: real)
    ensures Blend(Lookup(v, i, j), Lookup(v, i + 1, j), Lookup(v, i, j + 1), Lookup(v, i + 1, j + 1), s, t)
         == CellLinear(v, i, s, j, t)
  {
  }

  /** The sample read at a masked column and a masked row offset. */
  lemma ReadIsLookup(v: Value, i: int, j: int)
    ensures v[MaskCol(j) * Size + MaskCol(i)] == Lookup(v, i, j)
  {
    WrapIsMod(i);
    WrapIsMod(j);
  }

  /** The four masked reads of `Linear` are the four corners of the split cell. */
  lemma LinearReadsCell(v: Value, x: real, y: real)
    ensures Linear(v, x, y)
         == CellLinear(v, Split(x).index, Split(x).frac, Split(y).index, Split(y).frac)
  {
    hide *;
    var i := Split(x).index;
    var j := Split(y).index;
    LinearUnfold(v, x, y);
    LinearCornerReads(v, i, j);
    BilinearWeights(v, i, Split(x).frac, j, Split(y).frac);
  }

  /** What `Linear` computes, with the masked reads spelled out. */
  lemma LinearUnfold(v: Value, x: real, y: real)
    ensures
      var x1 := MaskCol(Split(x).index);
      var y1 := MaskCol(Split(y).index) * Size;
      Linear(v, x, y)
        == Blend(v[y1 + x1], v[y1 + MaskCol(x1 + 1)], v[MaskRow(y1 + Size) + x1],
                 v[MaskRow(y1 + Size) + MaskCol(x1 + 1)], Split(x).frac, Split(y).frac)
  {
  }

  /** The masked reads of `Value.Linear` hit the corners of cell `(i, j)`. */
  lemma LinearCornerReads(v: Value, i: int, j: int)
    ensures v[MaskCol(j) * Size + MaskCol(i)] == Lookup(v, i, j)
    ensures v[MaskCol(j) * Size + MaskCol(MaskCol(i) + 1)] == Lookup(v, i + 1, j)
    ensures v[MaskRow(MaskCol(j) * Size + Size) + MaskCol(i)] == Lookup(v, i, j + 1)
    ensures v[MaskRow(MaskCol(j) * Size + Size) + MaskCol(MaskCol(i) + 1)] == Lookup(v, i + 1, j + 1)
  {
    ColumnNeighbours(i);
    RowNeighbours(j);
    ReadIsLookup(v, i, j);
    ReadIsLookup(v, i + 1, j);
    ReadIsLookup(v, i, j + 1);
    ReadIsLookup(v, i + 1, j + 1);
  }

  /** Fraction 1 of one cell is fraction 0 of the next, in either direction. */
  lemma CellLinearSeams(v: Value, i: int, s: real, j: int, t: real)
    ensures CellLinear(v, i - 1, 1.0, j, t) == CellLinear(v, i, 0.0, j, t)
    ensures CellLinear(v, i, s, j - 1, 1.0) == CellLinear(v, i, s, j, 0.0)
  {
  }

  /** `Linear` is the bilinear interpolant of the lattice at every real point, negative ones included. */
  lemma LinearIsBilinear(v: Value, x: real, y: real)
    ensures Linear(v, x, y) == Bilinear(v, x, y)
  {
    var cx := Split(x);
    var cy := Split(y);
    LinearReadsCell(v, x, y);
    CellLinearSeams(v, x.Floor, cx.frac, y.Floor, cy.frac);
    CellLinearSeams(v, x.Floor, x - x.Floor as real, y.Floor, cy.frac);
  }

  /** At a lattice point `Linear` returns that point's sample, for every integer coordinate. */
  lemma LinearAtLatticePoint(v: Value, i: int, j: int)
    ensures Linear(v, i as real, j as real) == Lookup(v, i, j)
  {
    hide *;
    LinearIsBilinear(v, i as real, j as real);
    BilinearAtLatticePoint(v, i, j);
    CellLinearAtCorner(v, i, j);
  }

  lemma BilinearAtLatticePoint(v: Value, i: int, j: int)
    ensures Bilinear(v, i as real, j as real) == CellLinear(v, i, 0.0, j, 0.0)
  {
    assert (i as real).Floor == i && (j as real).Floor == j;
  }

  lemma CellLinearAtCorner(v: Value, i: int, j: int)
    ensures CellLinear(v, i, 0.0, j, 0.0) == Lookup(v, i, j)
  {
  }

  /** `Linear` repeats with period `size` in both coordinates. */
  lemma LinearPeriodic(v: Value, x: real, y: real, a: int, b: int)
    ensures Linear(v, x + (a * Size) as real, y + (b * Size) as real) == Linear(v, x, y)
  {
    hide *;
    var i := x.Floor;
    var j := y.Floor;
    LinearInCell(v, x, y, i, j);
    LinearInCell(v, x + (a * Size) as real, y + (b * Size) as real, i + a * Size, j + b * Size);
    CellLinearPeriodic(v, i, x - i as real, j, y - j as real, a, b);
  }

  /** A cell shifted by whole periods interpolates the same corners. */
  lemma CellLinearPeriodic(v: Value, i: int, s: real, j: int, t: real, a: int, b: int)
    ensures CellLinear(v, i + a * Size, s, j + b * Size, t) == CellLinear(v, i, s, j, t)
  {
    LookupPeriodic(v, i, j, a, b);
    LookupPeriodic(v, i + 1, j, a, b);
    LookupPeriodic(v, i, j + 1, a, b);
    LookupPeriodic(v, i + 1, j + 1, a, b);
  }

  /** Inside the cell with lower-left corner `(i, j)`, `Linear` interpolates that cell's corners. */
  lemma LinearInCell(v: Value, x: real, y: real, i: int, j: int)
    requires i as real <= x < (i + 1) as real && j as real <= y < (j + 1) as real
    ensures Linear(v, x, y) == CellLinear(v, i, x - i as real, j, y - j as real)
  {
    LinearIsBilinear(v, x, y);
    FloorOfCell(x, i);
    FloorOfCell(y, j);
  }

  lemma FloorOfCell(x: real, i: int)
    requires i as real <= x < (i + 1) as real
    ensures x.Floor == i
  {
  }

  /** Bilinear interpolation is linear in `s` along every horizontal line of the cell. */
  lemma CellLinearAffineInS(v: Value, i: int, s: real, j: int, t: real)
    ensures CellLinear(v, i, s, j, t) == Lerp(CellLinear(v, i, 0.0, j, t), CellLinear(v, i, 1.0, j, t), s)
  {
  }

  /** Bilinear interpolation is linear in `t` along every vertical line of the cell. */
  lemma CellLinearAffineInT(v: Value, i: int, s: real, j: int, t: real)
    ensures CellLinear(v, i, s, j, t) == Lerp(CellLinear(v, i, s, j, 0.0), CellLinear(v, i, s, j, 1.0), t)
  {
  }

  lemma LerpAtOne(a: real, b: real)
    ensures Lerp(a, b, 1.0) == b
  {
  }

  /** Within one column of cells `Linear` interpolates linearly between the cell's two edges. */
  lemma LinearAffineInX(v: Value, x: real, y: real, i: int)
    requires i as real <= x <= (i + 1) as real
    ensures Linear(v, x, y)
         == Lerp(Linear(v, i as real, y), Linear(v, (i + 1) as real, y), x - i as real)
  {
    if x < (i + 1) as real {
      var j := y.Floor;
      var t := y - j as real;
      LinearInCell(v, x, y, i, j);
      LinearInCell(v, i as real, y, i, j);
      LinearInCell(v, (i + 1) as real, y, i + 1, j);
      CellLinearSeams(v, i + 1, 0.0, j, t);
      CellLinearAffineInS(v, i, x - i as real, j, t);
    } else {
      LerpAtOne(Linear(v, i as real, y), Linear(v, (i + 1) as real, y));
    }
  }

  /** Within one row of cells `Linear` interpolates linearly between the cell's two edges. */
  lemma LinearAffineInY(v: Value, x: real, y: real, j: int)
    requires j as real <= y <= (j + 1) as real
    ensures Linear(v, x, y)
         == Lerp(Linear(v, x, j as real), Linear(v, x, (j + 1) as real), y - j as real)
  {
    if y < (j + 1) as real {
      var i := x.Floor;
      var s := x - i as real;
      LinearInCell(v, x, y, i, j);
      LinearInCell(v, x, j as real, i, j);
      LinearInCell(v, x, (j + 1) as real, i, j + 1);
      CellLinearSeams(v, i, s, j + 1, 0.0);
      CellLinearAffineInT(v, i, s, j, y - j as real);
    } else {
      LerpAtOne(Linear(v, x, j as real), Linear(v, x, (j + 1) as real));
    }
  }

  /** Linear interpolation runs monotonically from one end to the other. */
  lemma LerpMonotone(a: real, b: real, s: real, s': real)
    requires 0.0 <= s <= s' <= 1.0
    ensures a <= b ==> Lerp(a, b, s) <= Lerp(a, b, s')
    ensures b <= a ==> Lerp(a, b, s') <= Lerp(a, b, s)
  {
    assert Lerp(a, b, s') - Lerp(a, b, s) == (s' - s) * (b - a);
  }

  /**
    Between consecutive integers `x` is monotone: `Linear` moves from its value at the
    left edge towards its value at the right edge without overshooting.
   */
  lemma LinearMonotoneInX(v: Value, x: real, x': real, y: real, i: int)
    requires i as real <= x <= x' <= (i + 1) as real
    ensures Linear(v, i as real, y) <= Linear(v, (i + 1) as real, y) ==> Linear(v, x, y) <= Linear(v, x', y)
    ensures Linear(v, (i + 1) as real, y) <= Linear(v, i as real, y) ==> Linear(v, x', y) <= Linear(v, x, y)
  {
    LinearAffineInX(v, x, y, i);
    LinearAffineInX(v, x', y, i);
    LerpMonotone(Linear(v, i as real, y), Linear(v, (i + 1) as real, y), x - i as real, x' - i as real);
  }

  /** The same monotonicity in `y` between consecutive integers. */
  lemma LinearMonotoneInY(v: Value, x: real, y: real, y': real, j: int)
    requires j as real <= y <= y' <= (j + 1) as real
    ensures Linear(v, x, j as real) <= Linear(v, x, (j + 1) as real) ==> Linear(v, x, y) <= Linear(v, x, y')
    ensures Linear(v, x, (j + 1) as real) <= Linear(v, x, j as real) ==> Linear(v, x, y') <= Linear(v, x, y)
  {
    LinearAffineInY(v, x, y, j);
    LinearAffineInY(v, x, y', j);
    LerpMonotone(Linear(v, x, j as real), Linear(v, x, (j + 1) as real), y - j as real, y' - j as real);
  }

  /** A linear interpolation stays within any interval holding both ends. */
  lemma LerpBetween(a: real, b: real, s: real, lo: real, hi: real)
    requires 0.0 <= s <= 1.0
    requires lo <= a <= hi && lo <= b <= hi
    ensures lo <= Lerp(a, b, s) <= hi
  {
    LerpMonotone(a, b, 0.0, s);
    LerpMonotone(a, b, s, 1.0);
  }

  /** A linear interpolation of two values below `hi` stays below `hi`. */
  lemma LerpBelow(a: real, b: real, s: real, hi: real)
    requires 0.0 <= s <= 1.0
    requires a < hi && b < hi
    ensures Lerp(a, b, s) < hi
  {
    assert Lerp(a, b, s) - hi == (1.0 - s) * (a - hi) + s * (b - hi);
    if s == 0.0 {
    } else {
      assert s * (b - hi) < 0.0;
      assert (1.0 - s) * (a - hi) <= 0.0;
    }
  }

  /** `Linear` lies between the smallest and the largest of the four corners of its cell. */
  lemma LinearBetweenCorners(v: Value, x: real, y: real, lo: real, hi: real)
    requires lo <= Lookup(v, x.Floor, y.Floor) <= hi
    requires lo <= Lookup(v, x.Floor + 1, y.Floor) <= hi
    requires lo <= Lookup(v, x.Floor, y.Floor + 1) <= hi
    requires lo <= Lookup(v, x.Floor + 1, y.Floor + 1) <= hi
    ensures lo <= Linear(v, x, y) <= hi
  {
    var i := x.Floor;
    var j := y.Floor;
    var s := x - i as real;
    var t := y - j as real;
    LinearIsBilinear(v, x, y);
    LerpBetween(Lookup(v, i, j), Lookup(v, i + 1, j), s, lo, hi);
    LerpBetween(Lookup(v, i, j + 1), Lookup(v, i + 1, j + 1), s, lo, hi);
    LerpBetween(Lerp(Lookup(v, i, j), Lookup(v, i + 1, j), s),
                Lerp(Lookup(v, i, j + 1), Lookup(v, i + 1, j + 1), s), t, lo, hi);
  }

  /** Samples in `[lo, hi)`, as `Fill` leaves them for draws in `[0, 1)`, give `Linear` values in `[lo, hi)`. */
  lemma LinearBounded(v: Value, x: real, y: real, lo: real, hi: real)
    requires forall k | 0 <= k < |v| :: lo <= v[k] < hi
    ensures lo <= Linear(v, x, y) < hi
  {
    var i := x.Floor;
    var j := y.Floor;
    var s := x - i as real;
    var t := y - j as real;
    var a, b, c, d := Lookup(v, i, j), Lookup(v, i + 1, j), Lookup(v, i, j + 1), Lookup(v, i + 1, j + 1);
    LinearBetweenCorners(v, x, y, lo, hi);
    LinearIsBilinear(v, x, y);
    LerpBelow(a, b, s, hi);
    LerpBelow(c, d, s, hi);
    LerpBelow(Lerp(a, b, s), Lerp(c, d, s), t, hi);
  }

  // ---------------------------------------------------------------------------
  // Bicubic sampling

  /** `Value.Cubic`, step by step: the `Modf` split, the sixteen masked reads and the Hermite evaluation. */
  function Cubic(v: Value, x: real, y: real): real {
    var cx := Split(x);
    var cy := Split(y);
    var xr := cx.frac;
    var yr := cy.frac;
    var x1 := MaskCol(cx.index);
    var y1 := MaskCol(cy.index) * Size;
    var x0 := MaskCol(x1 - 1);
    var y0 := MaskRow(y1 - Size);
    var x2 := MaskCol(x1 + 1);
    var y2 := MaskRow(y1 + Size);
    var x3 := MaskCol(x2 + 1);
    var y3 := MaskRow(y2 + Size);
    var f00 := v[x0 + y0];
    var f01 := v[x0 + y1];
    var f02 := v[x0 + y2];
    var f03 := v[x0 + y3];
    var f10 := v[x1 + y0];
    var f11 := v[x1 + y1];
    var f12 := v[x1 + y2];
    var f13 := v[x1 + y3];
    var f20 := v[x2 + y0];
    var f21 := v[x2 + y1];
    var f22 := v[x2 + y2];
    var f23 := v[x2 + y3];
    var f30 := v[x3 + y0];
    var f31 := v[x3 + y1];
    var f32 := v[x3 + y2];
    var f33 := v[x3 + y3];
    Interpolate(Descriptor(Matrix(
      f00, f01, f02, f03,
      f10, f11, f12, f13,
      f20, f21, f22, f23,
      f30, f31, f32, f33)), xr, yr)
  }

  /**
    The descriptor `Value.Cubic` builds from a 4x4 block of samples `g`, where entry
    `4a + b` of `g` is `f<a><b>`, the sample `a - 1` columns and `b - 1` rows from the
    cell's lower-left corner: the values at the cell's corners, the slopes in `y` and
    in `x` by central differences, and the mixed slopes.
   */
  function Descriptor(g: Matrix): Matrix {
    var fy01 := (g.m2 - g.m0) / 2.0;
    var fy02 := (g.m3 - g.m1) / 2.0;
    var fy11 := (g.m6 - g.m4) / 2.0;
    var fy12 := (g.m7 - g.m5) / 2.0;
    var fy21 := (g.m10 - g.m8) / 2.0;
    var fy22 := (g.m11 - g.m9) / 2.0;
    var fy31 := (g.m14 - g.m12) / 2.0;
    var fy32 := (g.m15 - g.m13) / 2.0;
    var fx11 := (g.m9 - g.m1) / 2.0;
    var fx12 := (g.m10 - g.m2) / 2.0;
    var fx21 := (g.m13 - g.m5) / 2.0;
    var fx22 := (g.m14 - g.m6) / 2.0;
    var fxy11 := (fy21 - fy01) / 2.0;
    var fxy12 := (fy22 - fy02) / 2.0;
    var fxy21 := (fy31 - fy11) / 2.0;
    var fxy22 := (fy32 - fy12) / 2.0;
    Matrix(
      g.m5, g.m6, fy11, fy12,
      g.m9, g.m10, fy21, fy22,
      fx11, fx12, fxy11, fxy12,
      fx21, fx22, fxy21, fxy22)
  }

  /** The 4x4 block of lattice samples around the cell with lower-left corner `(i, j)`, in the layout of `Descriptor`. */
  function Window(v: Value, i: int, j: int): Matrix {
    Matrix(
      Lookup(v, i - 1, j - 1), Lookup(v, i - 1, j), Lookup(v, i - 1, j + 1), Lookup(v, i - 1, j + 2),
      Lookup(v, i, j - 1), Lookup(v, i, j), Lookup(v, i, j + 1), Lookup(v, i, j + 2),
      Lookup(v, i + 1, j - 1), Lookup(v, i + 1, j), Lookup(v, i + 1, j + 1), Lookup(v, i + 1, j + 2),
      Lookup(v, i + 2, j - 1), Lookup(v, i + 2, j), Lookup(v, i + 2, j + 1), Lookup(v, i + 2, j + 2))
  }

  /**
    The bicubic patch with descriptor `F` at offset `(s, t)`: the rows of `F` are blended
    by the Hermite basis in `s`, the resulting column descriptor is turned into the
    coefficients of a cubic in `t`, and that cubic is evaluated at `t`.
   */
  function Interpolate(F: Matrix, s: real, t: real): real {
    Dot(TimesM2(TimesMatrix(TimesM1(Powers(s)), F)), Powers(t))
  }

  /** The slope in `x` of the lattice at `(i, j)`, by central difference. */
  function SlopeX(v: Value, i: int, j: int): real {
    (Lookup(v, i + 1, j) - Lookup(v, i - 1, j)) / 2.0
  }

  /** The slope in `y` of the lattice at `(i, j)`, by central difference. */
  function SlopeY(v: Value, i: int, j: int): real {
    (Lookup(v, i, j + 1) - Lookup(v, i, j - 1)) / 2.0
  }

  /** The mixed slope at `(i, j)`: the central difference in `x` of the slopes in `y`. */
  function Twist(v: Value, i: int, j: int): real {
    (SlopeY(v, i + 1, j) - SlopeY(v, i - 1, j)) / 2.0
  }

  /**
    The descriptor of the cell with lower-left corner `(i, j)`: rows are indexed by
    (value at `i`, value at `i+1`, `x`-slope at `i`, `x`-slope at `i+1`) and columns
    by the same four quantities in `y`.
   */
  function Patch(v: Value, i: int, j: int): Matrix {
    Matrix(
      Lookup(v, i, j), Lookup(v, i, j + 1), SlopeY(v, i, j), SlopeY(v, i, j + 1),
      Lookup(v, i + 1, j), Lookup(v, i + 1, j + 1), SlopeY(v, i + 1, j), SlopeY(v, i + 1, j + 1),
      SlopeX(v, i, j), SlopeX(v, i, j + 1), Twist(v, i, j), Twist(v, i, j + 1),
      SlopeX(v, i + 1, j), SlopeX(v, i + 1, j + 1), Twist(v, i + 1, j), Twist(v, i + 1, j + 1))
  }

  /** The bicubic interpolant of the periodic lattice: the floor cell's patch at the fractional offset. */
  function Bicubic(v: Value, x: real, y: real): real {
    Interpolate(Patch(v, x.Floor, y.Floor), x - x.Floor as real, y - y.Floor as real)
  }

  /** The sixteen masked reads of `Cubic` are the 4x4 neighbourhood of the split cell. */
  lemma CubicReadsWindow(v: Value, x: real, y: real)
    ensures Cubic(v, x, y)
         == Interpolate(Descriptor(Window(v, Split(x).index, Split(y).index)), Split(x).frac, Split(y).frac)
  {
    hide *;
    CubicUnfold(v, x, y);
    WindowReads(v, Split(x).index, Split(y).index);
  }

  /** What `Cubic` computes, with the reads of the masked neighbours spelled out. */
  lemma CubicUnfold(v: Value, x: real, y: real)
    ensures
      var cx := Split(x);
      var cy := Split(y);
      var x1 := MaskCol(cx.index);
      var y1 := MaskCol(cy.index) * Size;
      var x0 := MaskCol(x1 - 1);
      var y0 := MaskRow(y1 - Size);
      var x2 := MaskCol(x1 + 1);
      var y2 := MaskRow(y1 + Size);
      var x3 := MaskCol(x2 + 1);
      var y3 := MaskRow(y2 + Size);
      Cubic(v, x, y) == Interpolate(Descriptor(Matrix(
        v[x0 + y0], v[x0 + y1], v[x0 + y2], v[x0 + y3],
        v[x1 + y0], v[x1 + y1], v[x1 + y2], v[x1 + y3],
        v[x2 + y0], v[x2 + y1], v[x2 + y2], v[x2 + y3],
        v[x3 + y0], v[x3 + y1], v[x3 + y2], v[x3 + y3])), cx.frac, cy.frac)
  {
  }

  /** The masked neighbour columns and row offsets of cell `(i, j)` read its 4x4 neighbourhood. */
  lemma WindowReads(v: Value, i: int, j: int)
    ensures
      var x1 := MaskCol(i);
      var y1 := MaskCol(j) * Size;
      var x0 := MaskCol(x1 - 1);
      var y0 := MaskRow(y1 - Size);
      var x2 := MaskCol(x1 + 1);
      var y2 := MaskRow(y1 + Size);
      var x3 := MaskCol(x2 + 1);
      var y3 := MaskRow(y2 + Size);
      Matrix(
        v[x0 + y0], v[x0 + y1], v[x0 + y2], v[x0 + y3],
        v[x1 + y0], v[x1 + y1], v[x1 + y2], v[x1 + y3],
        v[x2 + y0], v[x2 + y1], v[x2 + y2], v[x2 + y3],
        v[x3 + y0], v[x3 + y1], v[x3 + y2], v[x3 + y3]) == Window(v, i, j)
  {
    ColumnNeighbours(i);
    ColumnReads(v, MaskCol(MaskCol(i) - 1), i - 1, j);
    ColumnReads(v, MaskCol(i), i, j);
    ColumnReads(v, MaskCol(MaskCol(i) + 1), i + 1, j);
    ColumnReads(v, MaskCol(MaskCol(MaskCol(i) + 1) + 1), i + 2, j);
  }

  /** The four reads of one column `c` of the neighbourhood of row `j`. */
  lemma ColumnReads(v: Value, c: int, i: int, j: int)
    requires c == MaskCol(i)
    ensures
      var y1 := MaskCol(j) * Size;
      var y0 := MaskRow(y1 - Size);
      var y2 := MaskRow(y1 + Size);
      var y3 := MaskRow(y2 + Size);
      && v[c + y0] == Lookup(v, i, j - 1)
      && v[c + y1] == Lookup(v, i, j)
      && v[c + y2] == Lookup(v, i, j + 1)
      && v[c + y3] == Lookup(v, i, j + 2)
  {
    RowNeighbours(j);
    WrapIsMod(i);
    WrapIsMod(j - 1);
    WrapIsMod(j);
    WrapIsMod(j + 1);
    WrapIsMod(j + 2);
  }

  /** The descriptor `Value.Cubic` computes from the neighbourhood is the patch of central differences. */
  lemma DescriptorIsPatch(v: Value, i: int, j: int)
    ensures Descriptor(Window(v, i, j)) == Patch(v, i, j)
  {
  }

  /** The split of a coordinate that is not a negative integer is the floor split. */
  lemma SplitIsFloor(x: real)
    requires Split(x).frac < 1.0
    ensures Split(x).index == x.Floor && Split(x).frac == x - x.Floor as real
  {
  }

  /** A negative integer splits into the cell below at fraction 1. */
  lemma SplitAtNegativeInteger(x: real)
    requires Split(x).frac == 1.0
    ensures Split(x).index == x.Floor - 1 && x - x.Floor as real == 0.0
  {
  }

  /** Blending row 1 of `F` at the far edge equals blending row 0 of `G` at the near edge. */
  lemma InterpolateRowSeam(F: Matrix, G: Matrix, t: real)
    requires Row(F, 1) == Row(G, 0)
    ensures Interpolate(F, 1.0, t) == Interpolate(G, 0.0, t)
  {
    BasisValueAtOne();
    BasisValueAtZero();
    SelectRow(F, 1);
    SelectRow(G, 0);
  }

  /** Column 1 of `F` at the far edge equals column 0 of `G` at the near edge. */
  lemma InterpolateColumnSeam(F: Matrix, G: Matrix, s: real)
    requires Column(F, 1) == Column(G, 0)
    ensures Interpolate(F, s, 1.0) == Interpolate(G, s, 0.0)
  {
    var h := TimesM1(Powers(s));
    HermiteValueAtOne(TimesMatrix(h, F));
    HermiteValueAtZero(TimesMatrix(h, G));
  }

  /** Adjacent cells in `x` share the lattice column between them. */
  lemma PatchRowSeam(v: Value, i: int, j: int)
    ensures Row(Patch(v, i - 1, j), 1) == Row(Patch(v, i, j), 0)
    ensures Row(Patch(v, i - 1, j), 3) == Row(Patch(v, i, j), 2)
  {
  }

  /** Adjacent cells in `y` share the lattice row between them. */
  lemma PatchColumnSeam(v: Value, i: int, j: int)
    ensures Column(Patch(v, i, j - 1), 1) == Column(Patch(v, i, j), 0)
    ensures Column(Patch(v, i, j - 1), 3) == Column(Patch(v, i, j), 2)
  {
  }

  /** The split in `x` and the floor split in `x` give the same patch value. */
  lemma SplitCellX(v: Value, x: real, j: int, t: real)
    ensures Interpolate(Patch(v, Split(x).index, j), Split(x).frac, t)
         == Interpolate(Patch(v, x.Floor, j), x - x.Floor as real, t)
  {
    hide *;
    if Split(x).frac < 1.0 {
      SplitIsFloor(x);
    } else {
      SplitAtNegativeInteger(x);
      PatchRowSeam(v, x.Floor, j);
      InterpolateRowSeam(Patch(v, x.Floor - 1, j), Patch(v, x.Floor, j), t);
    }
  }

  /** The split in `y` and the floor split in `y` give the same patch value. */
  lemma SplitCellY(v: Value, i: int, s: real, y: real)
    ensures Interpolate(Patch(v, i, Split(y).index), s, Split(y).frac)
         == Interpolate(Patch(v, i, y.Floor), s, y - y.Floor as real)
  {
    hide *;
    if Split(y).frac < 1.0 {
      SplitIsFloor(y);
    } else {
      SplitAtNegativeInteger(y);
      PatchColumnSeam(v, i, y.Floor);
      InterpolateColumnSeam(Patch(v, i, y.Floor - 1), Patch(v, i, y.Floor), s);
    }
  }

  /** `Cubic` is the bicubic interpolant of the lattice at every real point, negative ones included. */
  lemma CubicIsBicubic(v: Value, x: real, y: real)
    ensures Cubic(v, x, y) == Bicubic(v, x, y)
  {
    CubicReadsWindow(v, x, y);
    DescriptorIsPatch(v, Split(x).index, Split(y).index);
    SplitCellX(v, x, Split(y).index, Split(y).frac);
    SplitCellY(v, x.Floor, x - x.Floor as real, y);
  }

  /** Inside the cell with lower-left corner `(i, j)`, `Cubic` evaluates that cell's patch. */
  lemma CubicInCell(v: Value, x: real, y: real, i: int, j: int)
    requires i as real <= x < (i + 1) as real && j as real <= y < (j + 1) as real
    ensures Cubic(v, x, y) == Interpolate(Patch(v, i, j), x - i as real, y - j as real)
  {
    CubicIsBicubic(v, x, y);
    FloorOfCell(x, i);
    FloorOfCell(y, j);
  }

  /** A patch evaluated at its lower-left corner gives the corner's value. */
  lemma InterpolateAtOrigin(F: Matrix)
    ensures Interpolate(F, 0.0, 0.0) == F.m0
  {
    BasisValueAtZero();
    SelectRow(F, 0);
    HermiteValueAtZero(Row(F, 0));
  }

  /** At a lattice point `Cubic` returns that point's sample, for every integer coordinate. */
  lemma CubicAtLatticePoint(v: Value, i: int, j: int)
    ensures Cubic(v, i as real, j as real) == Lookup(v, i, j)
  {
    CubicInCell(v, i as real, j as real, i, j);
    InterpolateAtOrigin(Patch(v, i, j));
  }

  /** `LookupPeriodic`, for a shifted point given in any form. */
  lemma LookupShift(v: Value, x: int, y: int, x': int, y': int, a: int, b: int)
    requires x' == x + a * Size && y' == y + b * Size
    ensures Lookup(v, x', y') == Lookup(v, x, y)
  {
    LookupPeriodic(v, x, y, a, b);
  }

  /** The neighbourhood of a cell shifted by whole periods is the same block of samples. */
  lemma WindowPeriodic(v: Value, i: int, j: int, a: int, b: int)
    ensures Window(v, i + a * Size, j + b * Size) == Window(v, i, j)
  {
    LookupShift(v, i - 1, j - 1, i + a * Size - 1, j + b * Size - 1, a, b);
    LookupShift(v, i - 1, j, i + a * Size - 1, j + b * Size, a, b);
    LookupShift(v, i - 1, j + 1, i + a * Size - 1, j + b * Size + 1, a, b);
    LookupShift(v, i - 1, j + 2, i + a * Size - 1, j + b * Size + 2, a, b);
    LookupShift(v, i, j - 1, i + a * Size, j + b * Size - 1, a, b);
    LookupShift(v, i, j, i + a * Size, j + b * Size, a, b);
    LookupShift(v, i, j + 1, i + a * Size, j + b * Size + 1, a, b);
    LookupShift(v, i, j + 2, i + a * Size, j + b * Size + 2, a, b);
    LookupShift(v, i + 1, j - 1, i + a * Size + 1, j + b * Size - 1, a, b);
    LookupShift(v, i + 1, j, i + a * Size + 1, j + b * Size, a, b);
    LookupShift(v, i + 1, j + 1, i + a * Size + 1, j + b * Size + 1, a, b);
    LookupShift(v, i + 1, j + 2, i + a * Size + 1, j + b * Size + 2, a, b);
    LookupShift(v, i + 2, j - 1, i + a * Size + 2, j + b * Size - 1, a, b);
    LookupShift(v, i + 2, j, i + a * Size + 2, j + b * Size, a, b);
    LookupShift(v, i + 2, j + 1, i + a * Size + 2, j + b * Size + 1, a, b);
    LookupShift(v, i + 2, j + 2, i + a * Size + 2, j + b * Size + 2, a, b);
  }

  /** The patch of a cell shifted by whole periods is the same patch. */
  lemma PatchPeriodic(v: Value, i: int, j: int, a: int, b: int)
    ensures Patch(v, i + a * Size, j + b * Size) == Patch(v, i, j)
  {
    hide *;
    WindowPeriodic(v, i, j, a, b);
    DescriptorIsPatch(v, i, j);
    DescriptorIsPatch(v, i + a * Size, j + b * Size);
  }

  /** Shifting a point and its cell by the same whole number of periods keeps the offset. */
  lemma ShiftedOffset(x: real, i: int, a: int)
    ensures (x + (a * Size) as real) - (i + a * Size) as real == x - i as real
  {
  }

  /** `Cubic` repeats with period `size` in both coordinates. */
  lemma CubicPeriodic(v: Value, x: real, y: real, a: int, b: int)
    ensures Cubic(v, x + (a * Size) as real, y + (b * Size) as real) == Cubic(v, x, y)
  {
    hide *;
    var i := x.Floor;
    var j := y.Floor;
    CubicInCell(v, x, y, i, j);
    CubicInCell(v, x + (a * Size) as real, y + (b * Size) as real, i + a * Size, j + b * Size);
    PatchPeriodic(v, i, j, a, b);
    ShiftedOffset(x, i, a);
    ShiftedOffset(y, j, b);
  }

  /** The Catmull-Rom spline through `p0..p3`, between `p1` (at 0) and `p2` (at 1). */
  function CatmullRom(p0: real, p1: real, p2: real, p3: real, s: real): real {
    (2.0 * p1 + (p2 - p0) * s + (2.0 * p0 - 5.0 * p1 + 4.0 * p2 - p3) * s * s
      + (3.0 * p1 - p0 - 3.0 * p2 + p3) * s * s * s) / 2.0
  }

  /** A Hermite cubic whose end slopes are central differences is the Catmull-Rom spline. */
  lemma HermiteIsCatmullRom(p0: real, p1: real, p2: real, p3: real, s: real)
    ensures Dot(TimesM1(Powers(s)), V4(p1, p2, (p2 - p0) / 2.0, (p3 - p1) / 2.0))
         == CatmullRom(p0, p1, p2, p3, s)
  {
  }

  /** Along its bottom edge a patch is the Hermite blend of its first column. */
  lemma InterpolateOnBottomEdge(F: Matrix, s: real)
    ensures Interpolate(F, s, 0.0) == Dot(TimesM1(Powers(s)), Column(F, 0))
  {
    HermiteValueAtZero(TimesMatrix(TimesM1(Powers(s)), F));
  }

  /** Along its left edge a patch is the Hermite blend of its first row. */
  lemma InterpolateOnLeftEdge(F: Matrix, t: real)
    ensures Interpolate(F, 0.0, t) == Dot(TimesM1(Powers(t)), Row(F, 0))
  {
    BasisValueAtZero();
    SelectRow(F, 0);
    BasisTranspose(Powers(t), Row(F, 0));
    DotSymmetric(TimesM2(Row(F, 0)), Powers(t));
  }

  /** The bottom edge of a patch: two samples of the row and their central-difference slopes. */
  lemma PatchBottomEdge(v: Value, i: int, j: int)
    ensures Column(Patch(v, i, j), 0)
         == V4(Lookup(v, i, j), Lookup(v, i + 1, j),
               (Lookup(v, i + 1, j) - Lookup(v, i - 1, j)) / 2.0, (Lookup(v, i + 2, j) - Lookup(v, i, j)) / 2.0)
  {
  }

  /** The left edge of a patch: two samples of the column and their central-difference slopes. */
  lemma PatchLeftEdge(v: Value, i: int, j: int)
    ensures Row(Patch(v, i, j), 0)
         == V4(Lookup(v, i, j), Lookup(v, i, j + 1),
               (Lookup(v, i, j + 1) - Lookup(v, i, j - 1)) / 2.0, (Lookup(v, i, j + 2) - Lookup(v, i, j)) / 2.0)
  {
  }

  /** On every lattice row `Cubic` is the Catmull-Rom spline through the samples of that row. */
  lemma CubicOnLatticeRow(v: Value, x: real, j: int)
    ensures Cubic(v, x, j as real)
         == CatmullRom(Lookup(v, x.Floor - 1, j), Lookup(v, x.Floor, j),
                       Lookup(v, x.Floor + 1, j), Lookup(v, x.Floor + 2, j), x - x.Floor as real)
  {
    hide *;
    var i := x.Floor;
    CubicInCell(v, x, j as real, i, j);
    InterpolateOnBottomEdge(Patch(v, i, j), x - i as real);
    PatchBottomEdge(v, i, j);
    HermiteIsCatmullRom(Lookup(v, i - 1, j), Lookup(v, i, j), Lookup(v, i + 1, j), Lookup(v, i + 2, j),
                        x - i as real);
  }

  /** On every lattice column `Cubic` is the Catmull-Rom spline through the samples of that column. */
  lemma CubicOnLatticeColumn(v: Value, i: int, y: real)
    ensures Cubic(v, i as real, y)
         == CatmullRom(Lookup(v, i, y.Floor - 1), Lookup(v, i, y.Floor),
                       Lookup(v, i, y.Floor + 1), Lookup(v, i, y.Floor + 2), y - y.Floor as real)
  {
    hide *;
    var j := y.Floor;
    CubicInCell(v, i as real, y, i, j);
    InterpolateOnLeftEdge(Patch(v, i, j), y - j as real);
    PatchLeftEdge(v, i, j);
    HermiteIsCatmullRom(Lookup(v, i, j - 1), Lookup(v, i, j), Lookup(v, i, j + 1), Lookup(v, i, j + 2),
                        y - j as real);
  }

  /** The slope in `s` of the patch `F`: `InterpolateStepS` shows it is the derivative of `Interpolate` in `s`. */
  function SlopeS(F: Matrix, s: real, t: real): real {
    Dot(TimesM2(TimesMatrix(TimesM1(Slopes(s)), F)), Powers(t))
  }

  /** The slope in `t` of the patch `F`: `InterpolateStepT` shows it is the derivative of `Interpolate` in `t`. */
  function SlopeT(F: Matrix, s: real, t: real): real {
    Dot(TimesM2(TimesMatrix(TimesM1(Powers(s)), F)), Slopes(t))
  }

  /** Along the column `s` the patch is a cubic in `t`, with these coefficients. */
  function CoefficientsInT(F: Matrix, s: real): V4 {
    TimesM2(TimesMatrix(TimesM1(Powers(s)), F))
  }

  /** Along the row `t` the patch is a cubic in `s`, with these coefficients. */
  function CoefficientsInS(F: Matrix, t: real): V4 {
    TimesM2(TimesV4(F, TimesM1(Powers(t))))
  }

  /**
    Blending the rows of `F` by `TimesM1(a)` and evaluating at `t` is evaluating the
    cubic in `s` along the row `t` against `a`: the same bilinear form read from the other side.
   */
  lemma RowForm(F: Matrix, a: V4, t: real)
    ensures Dot(TimesM2(TimesMatrix(TimesM1(a), F)), Powers(t)) == Dot(CoefficientsInS(F, t), a)
  {
    var q := TimesM1(Powers(t));
    var b := TimesMatrix(TimesM1(a), F);
    calc {
      Dot(TimesM2(b), Powers(t));
    == { DotSymmetric(TimesM2(b), Powers(t)); BasisTranspose(Powers(t), b); }
      Dot(q, b);
    == { DotSymmetric(q, b); DotTimesMatrix(TimesM1(a), F, q); }
      Dot(TimesM1(a), TimesV4(F, q));
    == { BasisTranspose(a, TimesV4(F, q)); DotSymmetric(a, CoefficientsInS(F, t)); }
      Dot(CoefficientsInS(F, t), a);
    }
  }

  /** Along a row the patch and its slope in `s` are a cubic in `s` and that cubic's slope. */
  lemma InterpolateInS(F: Matrix, s: real, t: real)
    ensures Interpolate(F, s, t) == Dot(CoefficientsInS(F, t), Powers(s))
    ensures SlopeS(F, s, t) == Dot(CoefficientsInS(F, t), Slopes(s))
  {
    RowForm(F, Powers(s), t);
    RowForm(F, Slopes(s), t);
  }

  /** The unfolding step of `InterpolateStepT`: along a column the patch and its slope in `t` read as a cubic in `t`. */
  lemma InterpolateInT(F: Matrix, s: real, t: real)
    ensures Interpolate(F, s, t) == Dot(CoefficientsInT(F, s), Powers(t))
    ensures SlopeT(F, s, t) == Dot(CoefficientsInT(F, s), Slopes(t))
  {
  }

  /**
    `SlopeS` is the derivative of `Interpolate` in `s`: a step `h` changes the patch by
    `h` times `SlopeS` plus a remainder of order `h^2`.
   */
  lemma InterpolateStepS(F: Matrix, s: real, t: real, h: real)
    ensures Interpolate(F, s + h, t) - Interpolate(F, s, t) - h * SlopeS(F, s, t)
         == h * h * (CoefficientsInS(F, t).v2 + CoefficientsInS(F, t).v3 * (3.0 * s + h))
  {
    hide *;
    InterpolateInS(F, s + h, t);
    InterpolateInS(F, s, t);
    PowersDerivative(CoefficientsInS(F, t), s, h);
  }

  /**
    `SlopeT` is the derivative of `Interpolate` in `t`: a step `h` changes the patch by
    `h` times `SlopeT` plus a remainder of order `h^2`.
   */
  lemma InterpolateStepT(F: Matrix, s: real, t: real, h: real)
    ensures Interpolate(F, s, t + h) - Interpolate(F, s, t) - h * SlopeT(F, s, t)
         == h * h * (CoefficientsInT(F, s).v2 + CoefficientsInT(F, s).v3 * (3.0 * t + h))
  {
    hide *;
    InterpolateInT(F, s, t + h);
    InterpolateInT(F, s, t);
    PowersDerivative(CoefficientsInT(F, s), t, h);
  }

  /** Row 3 of `F` at the far edge and row 2 of `G` at the near edge give the same slope in `s`. */
  lemma SlopeRowSeam(F: Matrix, G: Matrix, t: real)
    requires Row(F, 3) == Row(G, 2)
    ensures SlopeS(F, 1.0, t) == SlopeS(G, 0.0, t)
  {
    BasisSlopeAtOne();
    BasisSlopeAtZero();
    SelectRow(F, 3);
    SelectRow(G, 2);
  }

  /** Column 3 of `F` at the far edge and column 2 of `G` at the near edge give the same slope in `t`. */
  lemma SlopeColumnSeam(F: Matrix, G: Matrix, s: real)
    requires Column(F, 3) == Column(G, 2)
    ensures SlopeT(F, s, 1.0) == SlopeT(G, s, 0.0)
  {
    var h := TimesM1(Powers(s));
    HermiteSlopeAtOne(TimesMatrix(h, F));
    HermiteSlopeAtZero(TimesMatrix(h, G));
  }

  /** The bicubic interpolant is C1 across cell boundaries: both its value and its slope in `x` agree there. */
  lemma BicubicSmoothInX(v: Value, i: int, j: int, t: real)
    ensures Interpolate(Patch(v, i - 1, j), 1.0, t) == Interpolate(Patch(v, i, j), 0.0, t)
    ensures SlopeS(Patch(v, i - 1, j), 1.0, t) == SlopeS(Patch(v, i, j), 0.0, t)
  {
    hide *;
    PatchRowSeam(v, i, j);
    InterpolateRowSeam(Patch(v, i - 1, j), Patch(v, i, j), t);
    SlopeRowSeam(Patch(v, i - 1, j), Patch(v, i, j), t);
  }

  /** The same in `y`: value and slope in `y` agree across the boundary between rows of cells. */
  lemma BicubicSmoothInY(v: Value, i: int, j: int, s: real)
    ensures Interpolate(Patch(v, i, j - 1), s, 1.0) == Interpolate(Patch(v, i, j), s, 0.0)
    ensures SlopeT(Patch(v, i, j - 1), s, 1.0) == SlopeT(Patch(v, i, j), s, 0.0)
  {
    hide *;
    PatchColumnSeam(v, i, j);
    InterpolateColumnSeam(Patch(v, i, j - 1), Patch(v, i, j), s);
    SlopeColumnSeam(Patch(v, i, j - 1), Patch(v, i, j), s);
  }

  /** At a lattice point the interpolant's slope in `x` is the central difference of the samples. */
  lemma BicubicSlopeXAtLatticePoint(v: Value, i: int, j: int)
    ensures SlopeS(Patch(v, i, j), 0.0, 0.0) == SlopeX(v, i, j)
  {
    SlopeSAtOrigin(Patch(v, i, j));
  }

  /** At the origin of a patch the slope in `s` is the descriptor's first `x`-slope entry. */
  lemma SlopeSAtOrigin(F: Matrix)
    ensures SlopeS(F, 0.0, 0.0) == F.m8
  {
    hide TimesM1, Slopes, Unit;
    BasisSlopeAtZero();
    SelectRow(F, 2);
    HermiteValueAtZero(Row(F, 2));
  }

  /** At a lattice point the interpolant's slope in `y` is the central difference of the samples. */
  lemma BicubicSlopeYAtLatticePoint(v: Value, i: int, j: int)
    ensures SlopeT(Patch(v, i, j), 0.0, 0.0) == SlopeY(v, i, j)
  {
    BasisValueAtZero();
    SelectRow(Patch(v, i, j), 0);
    HermiteSlopeAtZero(Row(Patch(v, i, j), 0));
  }
}
