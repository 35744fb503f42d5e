/**
 * Machine words as the kernel code uses them, on unbounded naturals.
 *
 * The page-table code combines page-aligned physical addresses with low flag
 * bits using `|`, tests single bits with `&`, and masks addresses with
 * `& ~(size - 1)`. These are modelled arithmetically: a bitwise OR on
 * naturals, a bit test by remainder, and masking by subtracting a remainder.
 */
module Words {

  const U32_LIMIT: nat := 0x1_0000_0000
  const U64_LIMIT: nat := 0x1_0000_0000_0000_0000

  predicate IsU32(x: int) { 0 <= x < U32_LIMIT }
  predicate IsU64(x: int) { 0 <= x < U64_LIMIT }

  /** 2 to the power n. */
  function Pow2(n: nat): (r: nat)
    ensures r >= 1
  {
    if n == 0 then 1 else 2 * Pow2(n - 1)
  }

  /** Bitwise OR of two naturals, bit by bit from the least significant end. */
  function Or(x: nat, y: nat): nat
    decreases x + y
  {
    if x == 0 then y
    else if y == 0 then x
    else 2 * Or(x / 2, y / 2) + (if x % 2 == 1 || y % 2 == 1 then 1 else 0)
  }

  /**
   * ORing a value below 2^n into a multiple of 2^n is the same as adding it:
   * the two occupy disjoint bits.
   */
  lemma {:induction false} OrShifted(q: nat, f: nat, n: nat)
    requires f < Pow2(n)
    ensures Or(q * Pow2(n), f) == q * Pow2(n) + f
  {
    if n == 0 || q == 0 || f == 0 {
    } else {
      var x := q * Pow2(n - 1);
      assert q * Pow2(n) == 2 * x;
      OrShifted(q, f / 2, n - 1);
      assert Or(2 * x, f) == 2 * Or(x, f / 2) + f % 2;
    }
  }

  /** OR does not depend on the order of its operands. */
  lemma {:induction false} OrCommutes(x: nat, y: nat)
    ensures Or(x, y) == Or(y, x)
    decreases x + y
  {
    if x != 0 && y != 0 {
      OrCommutes(x / 2, y / 2);
    }
  }

  /** The form used by the page-table code: a 256-aligned address and flags below bit 8. */
  lemma OrLowFlags(a: nat, f: nat)
    requires a % 256 == 0 && f < 256
    ensures Or(a, f) == a + f
  {
    assert Pow2(8) == 256;
    OrShifted(a / 256, f, 8);
  }

  /** Bit test `e & mask != 0` for a single-bit mask. */
  predicate HasBit(e: nat, mask: nat)
    requires mask > 0
  {
    e % (2 * mask) >= mask
  }
}
