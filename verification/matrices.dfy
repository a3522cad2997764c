/**
  Four-vectors and row-major 4x4 matrices over the reals, and the cubic Hermite
  basis matrix used by the bicubic sampler. `TimesM1` applies the basis matrix to
  a row vector from the right; `TimesM2` applies the same matrix to a column
  vector from the left. A `V4` holds the entries `v[0]..v[3]` of the Go
  array and a `Matrix` the entries `m[0]..m[15]`, row-major.
 */
module Matrices {

  datatype V4 = V4(v0: real, v1: real, v2: real, v3: real)

  datatype Matrix = Matrix(
    m0: real, m1: real, m2: real, m3: real,
    m4: real, m5: real, m6: real, m7: real,
    m8: real, m9: real, m10: real, m11: real,
    m12: real, m13: real, m14: real, m15: real)

  function Row(m: Matrix, i: int): V4
    requires 0 <= i < 4
  {
    if i == 0 then V4(m.m0, m.m1, m.m2, m.m3)
    else if i == 1 then V4(m.m4, m.m5, m.m6, m.m7)
    else if i == 2 then V4(m.m8, m.m9, m.m10, m.m11)
    else V4(m.m12, m.m13, m.m14, m.m15)
  }

  function Column(m: Matrix, j: int): V4
    requires 0 <= j < 4
  {
    if j == 0 then V4(m.m0, m.m4, m.m8, m.m12)
    else if j == 1 then V4(m.m1, m.m5, m.m9, m.m13)
    else if j == 2 then V4(m.m2, m.m6, m.m10, m.m14)
    else V4(m.m3, m.m7, m.m11, m.m15)
  }

  function Entry(v: V4, k: int): real
    requires 0 <= k < 4
  {
    if k == 0 then v.v0 else if k == 1 then v.v1 else if k == 2 then v.v2 else v.v3
  }

  function Dot(v: V4, b: V4): real {
    v.v0 * b.v0 + v.v1 * b.v1 + v.v2 * b.v2 + v.v3 * b.v3
  }

  /** The matrix product `m * b`. */
  function Times(m: Matrix, b: Matrix): Matrix {
    Matrix(
      m.m0 * b.m0 + m.m1 * b.m4 + m.m2 * b.m8 + m.m3 * b.m12,
      m.m0 * b.m1 + m.m1 * b.m5 + m.m2 * b.m9 + m.m3 * b.m13,
      m.m0 * b.m2 + m.m1 * b.m6 + m.m2 * b.m10 + m.m3 * b.m14,
      m.m0 * b.m3 + m.m1 * b.m7 + m.m2 * b.m11 + m.m3 * b.m15,

      m.m4 * b.m0 + m.m5 * b.m4 + m.m6 * b.m8 + m.m7 * b.m12,
      m.m4 * b.m1 + m.m5 * b.m5 + m.m6 * b.m9 + m.m7 * b.m13,
      m.m4 * b.m2 + m.m5 * b.m6 + m.m6 * b.m10 + m.m7 * b.m14,
      m.m4 * b.m3 + m.m5 * b.m7 + m.m6 * b.m11 + m.m7 * b.m15,

      m.m8 * b.m0 + m.m9 * b.m4 + m.m10 * b.m8 + m.m11 * b.m12,
      m.m8 * b.m1 + m.m9 * b.m5 + m.m10 * b.m9 + m.m11 * b.m13,
      m.m8 * b.m2 + m.m9 * b.m6 + m.m10 * b.m10 + m.m11 * b.m14,
      m.m8 * b.m3 + m.m9 * b.m7 + m.m10 * b.m11 + m.m11 * b.m15,

      m.m12 * b.m0 + m.m13 * b.m4 + m.m14 * b.m8 + m.m15 * b.m12,
      m.m12 * b.m1 + m.m13 * b.m5 + m.m14 * b.m9 + m.m15 * b.m13,
      m.m12 * b.m2 + m.m13 * b.m6 + m.m14 * b.m10 + m.m15 * b.m14,
      m.m12 * b.m3 + m.m13 * b.m7 + m.m14 * b.m11 + m.m15 * b.m15)
  }

  /** The matrix-vector product `m * v` for a column vector `v`. */
  function TimesV4(m: Matrix, v: V4): (r: V4)
    ensures forall i | 0 <= i < 4 :: Entry(r, i) == Dot(Row(m, i), v)
  {
    V4(
      m.m0 * v.v0 + m.m1 * v.v1 + m.m2 * v.v2 + m.m3 * v.v3,
      m.m4 * v.v0 + m.m5 * v.v1 + m.m6 * v.v2 + m.m7 * v.v3,
      m.m8 * v.v0 + m.m9 * v.v1 + m.m10 * v.v2 + m.m11 * v.v3,
      m.m12 * v.v0 + m.m13 * v.v1 + m.m14 * v.v2 + m.m15 * v.v3)
  }

  /** The vector-matrix product `v * m` for a row vector `v`. */
  function TimesMatrix(v: V4, m: Matrix): (r: V4)
    ensures forall j | 0 <= j < 4 :: Entry(r, j) == Dot(v, Column(m, j))
  {
    V4(
      v.v0 * m.m0 + v.v1 * m.m4 + v.v2 * m.m8 + v.v3 * m.m12,
      v.v0 * m.m1 + v.v1 * m.m5 + v.v2 * m.m9 + v.v3 * m.m13,
      v.v0 * m.m2 + v.v1 * m.m6 + v.v2 * m.m10 + v.v3 * m.m14,
      v.v0 * m.m3 + v.v1 * m.m7 + v.v2 * m.m11 + v.v3 * m.m15)
  }

  /** The row vector `v` times the Hermite basis matrix. */
  function TimesM1(v: V4): V4 {
    V4(
      v.v0 - 3.0 * v.v2 + 2.0 * v.v3,
      3.0 * v.v2 - 2.0 * v.v3,
      v.v1 - 2.0 * v.v2 + v.v3,
      -v.v2 + v.v3)
  }

  /** The Hermite basis matrix times the column vector `v`. */
  function TimesM2(v: V4): V4 {
    V4(
      v.v0,
      v.v2,
      -3.0 * v.v0 + 3.0 * v.v1 - 2.0 * v.v2 - v.v3,
      2.0 * v.v0 - 2.0 * v.v1 + v.v2 + v.v3)
  }

  /** The monomials `[1, t, t^2, t^3]`: `Dot(c, Powers(t))` evaluates the cubic with coefficients `c`. */
  function Powers(t: real): V4 {
    V4(1.0, t, t * t, t * t * t)
  }

  /** The derivatives of the monomials, `[0, 1, 2t, 3t^2]`: `Dot(c, Slopes(t))` is the cubic's slope at `t`. */
  function Slopes(t: real): V4 {
    V4(0.0, 1.0, 2.0 * t, 3.0 * (t * t))
  }

  lemma DotSymmetric(v: V4, b: V4)
    ensures Dot(v, b) == Dot(b, v)
  {
  }

  /** `(v * m) . w == v . (m * w)`: a bilinear form can be evaluated from either side. */
  lemma DotTimesMatrix(v: V4, m: Matrix, w: V4)
    ensures Dot(TimesMatrix(v, m), w) == Dot(v, TimesV4(m, w))
  {
    ExpandLeft(v, m, w);
    ExpandRight(v, m, w);
  }

  /** The sixteen terms of the bilinear form `(v * m) . w`, grouped by column. */
  lemma ExpandLeft(v: V4, m: Matrix, w: V4)
    ensures Dot(TimesMatrix(v, m), w) ==
        v.v0 * m.m0 * w.v0 + v.v1 * m.m4 * w.v0 + v.v2 * m.m8 * w.v0 + v.v3 * m.m12 * w.v0
      + v.v0 * m.m1 * w.v1 + v.v1 * m.m5 * w.v1 + v.v2 * m.m9 * w.v1 + v.v3 * m.m13 * w.v1
      + v.v0 * m.m2 * w.v2 + v.v1 * m.m6 * w.v2 + v.v2 * m.m10 * w.v2 + v.v3 * m.m14 * w.v2
      + v.v0 * m.m3 * w.v3 + v.v1 * m.m7 * w.v3 + v.v2 * m.m11 * w.v3 + v.v3 * m.m15 * w.v3
  {
    assert Dot(TimesMatrix(v, m), w) ==
        (v.v0 * m.m0 + v.v1 * m.m4 + v.v2 * m.m8 + v.v3 * m.m12) * w.v0
      + (v.v0 * m.m1 + v.v1 * m.m5 + v.v2 * m.m9 + v.v3 * m.m13) * w.v1
      + (v.v0 * m.m2 + v.v1 * m.m6 + v.v2 * m.m10 + v.v3 * m.m14) * w.v2
      + (v.v0 * m.m3 + v.v1 * m.m7 + v.v2 * m.m11 + v.v3 * m.m15) * w.v3;
  }

  /** The same sixteen terms, obtained from `v . (m * w)`. */
  lemma ExpandRight(v: V4, m: Matrix, w: V4)
    ensures Dot(v, TimesV4(m, w)) ==
        v.v0 * m.m0 * w.v0 + v.v1 * m.m4 * w.v0 + v.v2 * m.m8 * w.v0 + v.v3 * m.m12 * w.v0
      + v.v0 * m.m1 * w.v1 + v.v1 * m.m5 * w.v1 + v.v2 * m.m9 * w.v1 + v.v3 * m.m13 * w.v1
      + v.v0 * m.m2 * w.v2 + v.v1 * m.m6 * w.v2 + v.v2 * m.m10 * w.v2 + v.v3 * m.m14 * w.v2
      + v.v0 * m.m3 * w.v3 + v.v1 * m.m7 * w.v3 + v.v2 * m.m11 * w.v3 + v.v3 * m.m15 * w.v3
  {
    assert Dot(v, TimesV4(m, w)) ==
        v.v0 * (m.m0 * w.v0 + m.m1 * w.v1 + m.m2 * w.v2 + m.m3 * w.v3)
      + v.v1 * (m.m4 * w.v0 + m.m5 * w.v1 + m.m6 * w.v2 + m.m7 * w.v3)
      + v.v2 * (m.m8 * w.v0 + m.m9 * w.v1 + m.m10 * w.v2 + m.m11 * w.v3)
      + v.v3 * (m.m12 * w.v0 + m.m13 * w.v1 + m.m14 * w.v2 + m.m15 * w.v3);
  }

  /** Each column of `m * b` is `m` times that column of `b`: `Times` is the row-major product. */
  lemma TimesColumns(m: Matrix, b: Matrix, j: int)
    requires 0 <= j < 4
    ensures Column(Times(m, b), j) == TimesV4(m, Column(b, j))
  {
    if j == 0 {
      TimesColumn0(m, b);
    } else if j == 1 {
      TimesColumn1(m, b);
    } else if j == 2 {
      TimesColumn2(m, b);
    } else {
      TimesColumn3(m, b);
    }
  }

  lemma TimesColumn0(m: Matrix, b: Matrix)
    ensures Column(Times(m, b), 0) == TimesV4(m, Column(b, 0))
  {
    var p := Times(m, b);
    assert Column(p, 0) == V4(p.m0, p.m4, p.m8, p.m12);
  }

  lemma TimesColumn1(m: Matrix, b: Matrix)
    ensures Column(Times(m, b), 1) == TimesV4(m, Column(b, 1))
  {
    var p := Times(m, b);
    assert Column(p, 1) == V4(p.m1, p.m5, p.m9, p.m13);
  }

  lemma TimesColumn2(m: Matrix, b: Matrix)
    ensures Column(Times(m, b), 2) == TimesV4(m, Column(b, 2))
  {
    var p := Times(m, b);
    assert Column(p, 2) == V4(p.m2, p.m6, p.m10, p.m14);
  }

  lemma TimesColumn3(m: Matrix, b: Matrix)
    ensures Column(Times(m, b), 3) == TimesV4(m, Column(b, 3))
  {
    var p := Times(m, b);
    assert Column(p, 3) == V4(p.m3, p.m7, p.m11, p.m15);
  }

  /** Multiplying a row vector by `a` and then by `b` is multiplying it by `a * b`. */
  lemma TimesMatrixAssociative(v: V4, a: Matrix, b: Matrix)
    ensures TimesMatrix(TimesMatrix(v, a), b) == TimesMatrix(v, Times(a, b))
  {
    var lhs := TimesMatrix(TimesMatrix(v, a), b);
    var rhs := TimesMatrix(v, Times(a, b));
    forall j | 0 <= j < 4
      ensures Entry(lhs, j) == Entry(rhs, j)
    {
      TimesColumns(a, b, j);
      DotTimesMatrix(v, a, Column(b, j));
    }
    assert Entry(lhs, 0) == Entry(rhs, 0) && Entry(lhs, 1) == Entry(rhs, 1);
    assert Entry(lhs, 2) == Entry(rhs, 2) && Entry(lhs, 3) == Entry(rhs, 3);
  }

  /** `TimesM1` and `TimesM2` apply one and the same matrix, from the row side and the column side. */
  lemma BasisTranspose(v: V4, w: V4)
    ensures Dot(TimesM1(v), w) == Dot(v, TimesM2(w))
  {
  }

  // `TimesM1(Powers(t))` is the cubic Hermite basis: its four polynomials take the
  // value 1 at t = 0 and at t = 1 respectively, and have slope 1 at t = 0 and at
  // t = 1 respectively, every other end value and end slope being 0.

  /** The basis at 0: only the first polynomial is nonzero. */
  lemma BasisValueAtZero()
    ensures TimesM1(Powers(0.0)) == Unit(0)
  {
  }

  /** The basis at 1: only the second polynomial is nonzero. */
  lemma BasisValueAtOne()
    ensures TimesM1(Powers(1.0)) == Unit(1)
  {
  }

  /** The basis slopes at 0: only the third polynomial has a slope. */
  lemma BasisSlopeAtZero()
    ensures TimesM1(Slopes(0.0)) == Unit(2)
  {
    assert Slopes(0.0) == V4(0.0, 1.0, 0.0, 0.0);
    assert Unit(2) == V4(0.0, 0.0, 1.0, 0.0);
  }

  /** The basis slopes at 1: only the fourth polynomial has a slope. */
  lemma BasisSlopeAtOne()
    ensures TimesM1(Slopes(1.0)) == Unit(3)
  {
  }

  /** The two value polynomials of the basis sum to 1 everywhere. */
  lemma HermitePartitionOfUnity(t: real)
    ensures TimesM1(Powers(t)).v0 + TimesM1(Powers(t)).v1 == 1.0
  {
  }

  /**
    `TimesM2(w)` is the one cubic whose value at 0 and 1 is `w.v0` and `w.v1` and
    whose slope at 0 and 1 is `w.v2` and `w.v3`.
   */
  lemma HermiteCoefficients(w: V4, c: V4)
    ensures c == TimesM2(w) <==>
      && Dot(c, Powers(0.0)) == w.v0
      && Dot(c, Powers(1.0)) == w.v1
      && Dot(c, Slopes(0.0)) == w.v2
      && Dot(c, Slopes(1.0)) == w.v3
  {
    var d := TimesM2(w);
    if Dot(c, Powers(0.0)) == w.v0 && Dot(c, Powers(1.0)) == w.v1
      && Dot(c, Slopes(0.0)) == w.v2 && Dot(c, Slopes(1.0)) == w.v3
    {
      assert c.v0 == d.v0 && c.v1 == d.v1;
      assert c.v2 == d.v2 && c.v3 == d.v3;
    }
  }

  /** The unit vector with a 1 at position `i`. */
  function Unit(i: int): V4
    requires 0 <= i < 4
  {
    if i == 0 then V4(1.0, 0.0, 0.0, 0.0)
    else if i == 1 then V4(0.0, 1.0, 0.0, 0.0)
    else if i == 2 then V4(0.0, 0.0, 1.0, 0.0)
    else V4(0.0, 0.0, 0.0, 1.0)
  }

  /** The `i`-th unit row vector times `m` is row `i` of `m`. */
  lemma SelectRow(m: Matrix, i: int)
    requires 0 <= i < 4
    ensures TimesMatrix(Unit(i), m) == Row(m, i)
  {
  }

  /** The cubic with coefficients `TimesM2(w)` takes the value `w.v0` at 0. */
  lemma HermiteValueAtZero(w: V4)
    ensures Dot(TimesM2(w), Powers(0.0)) == w.v0
  {
  }

  /** The cubic with coefficients `TimesM2(w)` takes the value `w.v1` at 1. */
  lemma HermiteValueAtOne(w: V4)
    ensures Dot(TimesM2(w), Powers(1.0)) == w.v1
  {
  }

  /** The cubic with coefficients `TimesM2(w)` has the slope `w.v2` at 0. */
  lemma HermiteSlopeAtZero(w: V4)
    ensures Dot(TimesM2(w), Slopes(0.0)) == w.v2
  {
  }

  /** The cubic with coefficients `TimesM2(w)` has the slope `w.v3` at 1. */
  lemma HermiteSlopeAtOne(w: V4)
    ensures Dot(TimesM2(w), Slopes(1.0)) == w.v3
  {
  }

  /**
    `Slopes` is the derivative of `Powers`: stepping a cubic from `t` to `t + h` adds
    `h` times its slope at `t` and a remainder of order `h^2`.
   */
  lemma PowersDerivative(c: V4, t: real, h: real)
    ensures Dot(c, Powers(t + h))
         == Dot(c, Powers(t)) + h * Dot(c, Slopes(t)) + h * h * (c.v2 + c.v3 * (3.0 * t + h))
  {
  }
}
