/**
  The lattice geometry: a 2^shift by 2^shift toroidal grid stored flat, with the
  column in the low `shift` bits of an index and the row in the next `shift` bits.
  Moduli by the grid size are taken with bit masks, which `MaskCol` and `MaskRow`
  model with `Bits.AndMask` and prove equal to Euclidean arithmetic.
 */
module Lattice {
  import opened Bits

  /** Number of bits of one lattice coordinate. */
  const Shift: nat := 9

  /** Side of the lattice: `1 << shift`. */
  const Size: int := 512

  /** `size - 1`: the mask that reduces a coordinate modulo `size`. */
  const IntMask: int := Size - 1

  /** Number of lattice cells. */
  const Size2: int := Size * Size

  /** `size2 - 1 - intMask`: the mask that reduces a row offset modulo `size2`. */
  const Int2Mask: int := Size2 - 1 - IntMask

  /** The constants are the powers of two their comments promise. */
  lemma ConstantsArePowersOfTwo()
    ensures Size == Pow2(Shift) && Size2 == Size * Size
    ensures IntMask == Pow2(Shift) - 1
    ensures Int2Mask == IntMask * Pow2(Shift)
  {
    assert Pow2(Shift) == 512;
  }

  /** `x & intMask`: the column of `x`, for every integer including negatives. */
  function MaskCol(x: int): (r: int)
    ensures r == x % Size
    ensures 0 <= r < Size
  {
    ConstantsArePowersOfTwo();
    LowMaskIsMod(x, Shift);
    AndMask(x, IntMask)
  }

  /** `x & int2Mask`: the row offset of `x`, that is `((x >> shift) mod size) << shift`. */
  function MaskRow(x: int): (r: int)
    ensures r == (x / Size) % Size * Size
    ensures 0 <= r <= Size2 - Size && r % Size == 0
  {
    ConstantsArePowersOfTwo();
    ShiftedMask(x, IntMask, Shift);
    LowMaskIsMod(x / Size, Shift);
    AndMask(x, Int2Mask)
  }

  /** Masking a row offset `r << shift` wraps the row modulo `size`. */
  lemma RowWrap(r: int)
    ensures MaskRow(r * Size) == (r % Size) * Size
  {
    DivModUnique(r * Size, Size, r, 0);
  }

  /** The flat index of column `x` and row `y`: `y << shift + x`. */
  function Index(x: int, y: int): (k: int)
    requires 0 <= x < Size && 0 <= y < Size
    ensures 0 <= k < Size2
    ensures MaskCol(k) == x && k / Size == y
  {
    DivModUnique(y * Size + x, Size, y, x);
    y * Size + x
  }

  /** Every flat index is the index of exactly the column and row the masks read off it. */
  lemma IndexSurjective(k: int)
    requires 0 <= k < Size2
    ensures 0 <= k / Size < Size
    ensures Index(MaskCol(k), k / Size) == k
  {
  }
}
