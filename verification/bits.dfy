/**
  Bit-level facts shared by the lattice index arithmetic and the fixed-point
  kernel. Go's `&` on a (two's-complement) integer with a nonnegative mask is
  modelled by `AndMask`, which reads bits off with Euclidean `/ 2` and `% 2`:
  for a negative `x` this is exactly the infinite sign-extended two's-complement
  expansion, so the model agrees with Go's `int` and `uint64` for every mask
  below 2^63.
 */
module Bits {

  function Pow2(n: nat): (p: nat)
    ensures p >= 1
  {
    if n == 0 then 1 else 2 * Pow2(n - 1)
  }

  /** Exponents add. */
  lemma {:induction false} Pow2Add(a: nat, b: nat)
    ensures Pow2(a + b) == Pow2(a) * Pow2(b)
    decreases a
  {
    if a > 0 {
      Pow2Add(a - 1, b);
    }
  }

  /** `x & m` for any integer `x` and a nonnegative mask `m`. */
  function AndMask(x: int, m: nat): (r: nat)
    ensures r <= m
    decreases m
  {
    if m == 0 then 0
    else 2 * AndMask(x / 2, m / 2) + (if x % 2 == 1 && m % 2 == 1 then 1 else 0)
  }

  /** Division with remainder has exactly one solution. */
  lemma DivModUnique(x: int, d: int, q: int, r: int)
    requires d > 0 && 0 <= r < d && x == q * d + r
    ensures x / d == q && x % d == r
  {
    var q' := x / d;
    var r' := x % d;
    assert x == q' * d + r';
    if q' > q {
      MulAtLeast(q' - q, d);
      assert false;
    } else if q' < q {
      MulAtLeast(q - q', d);
      assert false;
    }
  }

  lemma MulAtLeast(a: int, d: int)
    requires a >= 1 && d > 0
    ensures a * d >= d
  {
  }

  /** Dividing by 2 and then by 2^(k-1) is dividing by 2^k; the remainders compose. */
  lemma HalveThenDivide(x: int, k: nat)
    requires k >= 1
    ensures (x / 2) / Pow2(k - 1) == x / Pow2(k)
    ensures 2 * ((x / 2) % Pow2(k - 1)) + x % 2 == x % Pow2(k)
  {
    var p := Pow2(k - 1);
    var q := (x / 2) / p;
    var r := (x / 2) % p;
    assert x / 2 == q * p + r;
    assert x == 2 * (x / 2) + x % 2;
    assert x == q * (2 * p) + (2 * r + x % 2);
    DivModUnique(x, 2 * p, q, 2 * r + x % 2);
  }

  /** The low mask `2^k - 1` keeps the Euclidean remainder modulo 2^k, also for negative `x`. */
  lemma {:induction false} LowMaskIsMod(x: int, k: nat)
    ensures AndMask(x, Pow2(k) - 1) == x % Pow2(k)
    decreases k
  {
    hide *;
    if k == 0 {
      LowMaskEmpty(x);
    } else {
      LowMaskIsMod(x / 2, k - 1);
      LowMaskStep(x, k);
    }
  }

  /** The empty mask keeps nothing, and nothing is left modulo 1. */
  lemma LowMaskEmpty(x: int)
    ensures AndMask(x, Pow2(0) - 1) == x % Pow2(0)
  {
  }

  /** One more mask bit keeps one more low bit of `x`. */
  lemma LowMaskStep(x: int, k: nat)
    requires k >= 1
    requires AndMask(x / 2, Pow2(k - 1) - 1) == (x / 2) % Pow2(k - 1)
    ensures AndMask(x, Pow2(k) - 1) == x % Pow2(k)
  {
    hide *;
    LowMaskHalves(k);
    HalveThenDivide(x, k);
    OddMask(x, Pow2(k) - 1);
  }

  /** Halving the low mask `2^k - 1` drops one bit and leaves an odd mask. */
  lemma LowMaskHalves(k: nat)
    requires k >= 1
    ensures (Pow2(k) - 1) % 2 == 1 && (Pow2(k) - 1) / 2 == Pow2(k - 1) - 1
  {
  }

  /** An odd mask keeps the low bit of `x`. */
  lemma OddMask(x: int, m: nat)
    requires m % 2 == 1
    ensures AndMask(x, m) == 2 * AndMask(x / 2, m / 2) + x % 2
  {
  }

  lemma MulTwice(a: int, p: int)
    ensures 2 * (a * p) == a * (2 * p)
  {
  }

  /** An even mask ignores the low bit of `x`. */
  lemma HalveMask(x: int, half: nat)
    ensures AndMask(x, 2 * half) == 2 * AndMask(x / 2, half)
  {
    if half > 0 {
      assert (2 * half) % 2 == 0 && (2 * half) / 2 == half;
    }
  }

  /** A mask shifted left by `b` selects the bits of `x >> b` and shifts them back. */
  lemma {:induction false} ShiftedMask(x: int, m: nat, b: nat)
    ensures AndMask(x, m * Pow2(b)) == AndMask(x / Pow2(b), m) * Pow2(b)
    decreases b
  {
    if b == 0 {
      assert m * Pow2(0) == m;
    } else if m == 0 {
    } else {
      var p := Pow2(b - 1);
      var half := m * p;
      assert m * Pow2(b) == 2 * half;
      assert half >= 1 by { MulAtLeast(p, m); }
      HalveMask(x, half);
      ShiftedMask(x / 2, m, b - 1);
      HalveThenDivide(x, b);
      var a := AndMask(x / Pow2(b), m);
      assert AndMask(x, m * Pow2(b)) == 2 * (a * p);
      MulTwice(a, p);
    }
  }
}
