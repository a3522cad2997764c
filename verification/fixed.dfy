/**
  The fixed-point kernel: `F16` and `F32` are unsigned 64-bit words read as
  multiples of 2^-16 and 2^-32. Every operation is exact integer arithmetic on
  the word; Go's wrap-around is written out as Euclidean `%` by 2^64, and Go's
  signed `int` is the 64-bit range `GoInt`.

  `Value16` and `Value32` give the real number a word stands for; the lemmas at
  the end state each operation's meaning in those terms.
 */
module Fixed {
  import opened Bits

  /** 2^64: one more than the largest `uint64`. */
  const Word: int := 0x1_0000_0000_0000_0000

  newtype F16 = x: int | 0 <= x < 0x1_0000_0000_0000_0000
  newtype F32 = x: int | 0 <= x < 0x1_0000_0000_0000_0000

  /** Go's `int` on a 64-bit platform. */
  type GoInt = x: int | -0x8000_0000_0000_0000 <= x < 0x8000_0000_0000_0000

  /** Bits after the binary point of an `F16` and of an `F32`. */
  const Size16: nat := 16
  const Size32: nat := 32

  const One16: F16 := 0x1_0000
  const Half16: F16 := One16 / 2
  const Zero16: F16 := 0
  const Zero32: F32 := 0
  const One32: F32 := 0x1_0000_0000

  /** The masks that keep the fractional bits. */
  const RemainderMask16: F16 := One16 - 1
  const RemainderMask32: F32 := One32 - 1

  /** The constants are the powers of two their names promise. */
  lemma ConstantsArePowersOfTwo()
    ensures One16 as int == Pow2(Size16) && Half16 as int == Pow2(Size16 - 1)
    ensures One32 as int == Pow2(Size32) && Zero16 == 0 && Zero32 == 0
    ensures RemainderMask16 as int == Pow2(Size16) - 1 && RemainderMask32 as int == Pow2(Size32) - 1
  {
    assert Pow2(15) == 0x8000;
    Pow2Add(16, 16);
  }

  /** The real number an `F16` stands for. */
  function Value16(f: F16): real {
    f as real / 65536.0
  }

  /** The real number an `F32` stands for. */
  function Value32(f: F32): real {
    f as real / 4294967296.0
  }

  /**
    `Int(i)`: `i << 16` on a signed word, reinterpreted as unsigned. Both steps
    keep the low 64 bits, so the result is `i * 2^16` modulo 2^64; it is exactly
    `i * 2^16` when `0 <= i < 2^48`.
   */
  function Int(i: GoInt): (r: F16)
    ensures (r as int - i as int * 0x1_0000) % Word == 0
    ensures 0 <= i < 0x1_0000_0000_0000 ==> r as int == i as int * 0x1_0000
  {
    var p := i as int * 0x1_0000;
    LowWord(p);
    (p % Word) as F16
  }

  /** Keeping the low 64 bits of `p` changes it by a multiple of 2^64, and not at all when it fits. */
  lemma LowWord(p: int)
    ensures (p % Word - p) % Word == 0
    ensures 0 <= p < Word ==> p % Word == p
  {
    DivModUnique(p % Word - p, Word, -(p / Word), 0);
    if 0 <= p < Word {
      DivModUnique(p, Word, 0, p);
    }
  }

  /** `F16.Int`: the integral part `f >> 16`, which always fits a `GoInt`. */
  function Integral(f: F16): (r: GoInt)
    ensures 0 <= r < 0x1_0000_0000_0000
    ensures r * 0x1_0000 <= f as int < (r + 1) * 0x1_0000
  {
    f as int / 0x1_0000
  }

  /** `Remainder`: `f & remainderMask16`, the fractional bits of `f`. */
  function Remainder(f: F16): (r: F16)
    ensures r < One16
    ensures (f as int - r as int) % 0x1_0000 == 0
  {
    ConstantsArePowersOfTwo();
    LowMaskIsMod(f as int, Size16);
    AndMask(f as int, RemainderMask16 as int) as F16
  }

  /**
    `Times`: the product of two `F16`s read as an `F32` (2^-16 times 2^-16 is
    2^-32), so no shift is needed. The `uint64` multiplication keeps the low
    64 bits of the product.
   */
  function Times(f: F16, f2: F16): (r: F32)
    ensures (r as int - f as int * f2 as int) % Word == 0
    ensures f as int * f2 as int < Word ==> r as int == f as int * f2 as int
  {
    var p := f as int * f2 as int;
    LowWord(p);
    (p % Word) as F32
  }

  /** `F32.F16`: narrowing by `f >> 16`, which drops the low 16 fractional bits. */
  function ToF16(f: F32): (r: F16)
    ensures r as int * 0x1_0000 <= f as int < (r as int + 1) * 0x1_0000
  {
    (f as int / 0x1_0000) as F16
  }

  /**
    `DividedBy`: `F16(f) / f2`, the `uint64` quotient rounded down. Reading the
    `F32` word as an `F16` multiplies it by 2^16, which the division by an `F16`
    cancels. Go panics on a zero divisor, which the precondition excludes.
   */
  function DividedBy(f: F32, f2: F16): (r: F16)
    requires f2 != 0
    ensures r as int * f2 as int <= f as int < (r as int + 1) * f2 as int
  {
    (f as int / f2 as int) as F16
  }

  /** `Invert`: `One32.DividedBy(f)`, the reciprocal rounded down. */
  function Invert(f: F16): (r: F16)
    requires f != 0
    ensures r as int * f as int <= One32 as int < (r as int + 1) * f as int
  {
    DividedBy(One32, f)
  }

  // ---------------------------------------------------------------------------
  // Properties

  /** Widening an integer and taking its integral part gives the integer back modulo 2^48. */
  lemma IntIntegral(i: GoInt)
    ensures Integral(Int(i)) == i % 0x1_0000_0000_0000
  {
    var w := 0x1_0000_0000_0000;
    var m := i % w;
    assert i == (i / w) * w + m;
    assert i * 0x1_0000 == (i / w) * Word + m * 0x1_0000;
    DivModUnique(i * 0x1_0000, Word, i / w, m * 0x1_0000);
    DivModUnique(m * 0x1_0000, 0x1_0000, m, 0);
  }

  /** Every integer in `[0, 2^48)` survives the round trip through `Int`. */
  lemma IntRoundTrip(i: GoInt)
    requires 0 <= i < 0x1_0000_0000_0000
    ensures Integral(Int(i)) == i
  {
    IntIntegral(i);
  }

  /** A negative integer comes back shifted by 2^48: an `F16` cannot hold it. */
  lemma IntOfNegative(i: GoInt)
    requires -0x1_0000_0000_0000 <= i < 0
    ensures Integral(Int(i)) == i + 0x1_0000_0000_0000
  {
    IntIntegral(i);
    DivModUnique(i, 0x1_0000_0000_0000, -1, i + 0x1_0000_0000_0000);
  }

  /** The remainder is the Euclidean remainder modulo 2^16. */
  lemma RemainderIsMod(f: F16)
    ensures Remainder(f) as int == f as int % 0x1_0000
  {
    DivModUnique(f as int, 0x1_0000, (f as int - Remainder(f) as int) / 0x1_0000, Remainder(f) as int);
  }

  /** A whole number has no fractional bits. */
  lemma IntRemainder(i: GoInt)
    ensures Remainder(Int(i)) == 0
  {
    var r := Int(i) as int;
    RemainderIsMod(Int(i));
    DivModUnique(i * 0x1_0000, Word, (i * 0x1_0000) / Word, r);
    DivModUnique(r, 0x1_0000, i - ((i * 0x1_0000) / Word) * 0x1_0000_0000_0000, 0);
  }

  /** Taking the remainder twice is taking it once. */
  lemma RemainderIdempotent(f: F16)
    ensures Remainder(Remainder(f)) == Remainder(f)
  {
    RemainderIsMod(f);
    RemainderIsMod(Remainder(f));
  }

  /** Every `F16` is its integral part, widened back, plus its remainder. */
  lemma Decompose(f: F16)
    ensures Int(Integral(f)) as int + Remainder(f) as int == f as int
  {
    RemainderIsMod(f);
    var q: int := Integral(f);
    assert Int(q) as int == q * 0x1_0000;
  }

  /** Narrowing undoes a widening multiplication by one. */
  lemma NarrowTimesOne(f: F16)
    requires f < 0x1_0000_0000_0000
    ensures ToF16(Times(f, One16)) == f
  {
    assert f as int * One16 as int < Word;
    DivModUnique(f as int * 0x1_0000, 0x1_0000, f as int, 0);
  }

  /** Multiplying then dividing by the same nonzero `F16` gives the first factor back when the product fits. */
  lemma DividedByUndoesTimes(f: F16, f2: F16)
    requires f2 != 0
    requires f as int * f2 as int < Word
    ensures DividedBy(Times(f, f2), f2) == f
  {
    DivModUnique(f as int * f2 as int, f2 as int, f as int, 0);
  }

  /** One is its own reciprocal. */
  lemma InvertOne()
    ensures Invert(One16) == One16
  {
  }

  /** Widening an integer in `[0, 2^48)` stands for that integer. */
  lemma IntValue(i: GoInt)
    requires 0 <= i < 0x1_0000_0000_0000
    ensures Value16(Int(i)) == i as real
  {
  }

  /** The value of an `F16` is its integral part plus the value of its remainder, which lies in `[0, 1)`. */
  lemma ValueSplits(f: F16)
    ensures Value16(f) == Integral(f) as real + Value16(Remainder(f))
    ensures 0.0 <= Value16(Remainder(f)) < 1.0
  {
    Decompose(f);
    assert Int(Integral(f)) as int == Integral(f) * 0x1_0000;
  }

  /** When the product fits, `Times` stands for the product of the values. */
  lemma TimesValue(f: F16, f2: F16)
    requires f as int * f2 as int < Word
    ensures Value32(Times(f, f2)) == Value16(f) * Value16(f2)
  {
    var p := f as int * f2 as int;
    assert Times(f, f2) as int == p;
    assert (f as real) * (f2 as real) == p as real;
  }

  /** Narrowing rounds the value down to a multiple of 2^-16. */
  lemma ToF16Value(f: F32)
    ensures Value16(ToF16(f)) <= Value32(f) < Value16(ToF16(f)) + 1.0 / 65536.0
  {
    var r := ToF16(f) as int;
    assert (r * 0x1_0000) as real <= f as real < ((r + 1) * 0x1_0000) as real;
  }

  /** `DividedBy` rounds the quotient of the values down to a multiple of 2^-16. */
  lemma DividedByValue(f: F32, f2: F16)
    requires f2 != 0
    ensures Value16(DividedBy(f, f2)) * Value16(f2) <= Value32(f)
    ensures Value32(f) < (Value16(DividedBy(f, f2)) + 1.0 / 65536.0) * Value16(f2)
  {
    var r := DividedBy(f, f2) as int;
    var d := f2 as int;
    assert (r * d) as real <= f as real < ((r + 1) * d) as real;
    assert (r as real) * (d as real) == (r * d) as real;
    assert ((r + 1) as real) * (d as real) == ((r + 1) * d) as real;
  }
}
