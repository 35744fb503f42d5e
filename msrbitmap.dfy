/**
 * The MSR-bitmap page and __vmx_disable_intercept_for_msr.
 *
 * Section 24.6.9 of the Intel 64 and IA-32 Architectures SDM, Vol. 3C,
 * divides the 4-KByte page into four 1-KByte bitmaps: read-low at byte
 * 0x000, read-high at 0x400, write-low at 0x800 and write-high at 0xC00.
 * The low bitmaps cover MSRs 0x00000000-0x00001FFF and the high ones MSRs
 * 0xC0000000-0xC0001FFF; a 1 bit makes RDMSR or WRMSR of that MSR exit, and
 * an MSR outside both ranges always exits. Bit n of the page is bit n % 8 of
 * byte n / 8, which is also how the kernel's bit operations number the bits
 * of an array of longs on x86.
 */
module MsrBitmap {

  const PAGE_BITS: nat := 4096 * 8
  const READ_LOW: nat := 0x000 * 8
  const READ_HIGH: nat := 0x400 * 8
  const WRITE_LOW: nat := 0x800 * 8
  const WRITE_HIGH: nat := 0xc00 * 8
  const LOW_LAST: nat := 0x1fff
  const HIGH_FIRST: nat := 0xc000_0000
  const HIGH_LAST: nat := 0xc000_1fff

  predicate InLowRange(msr: nat) { msr <= LOW_LAST }
  predicate InHighRange(msr: nat) { HIGH_FIRST <= msr <= HIGH_LAST }

  /** Whether RDMSR of `msr` causes a VM exit under the bitmap `b`. */
  predicate ReadExits(b: seq<bool>, msr: nat)
    requires |b| == PAGE_BITS
  {
    if InLowRange(msr) then b[READ_LOW + msr]
    else if InHighRange(msr) then b[READ_HIGH + (msr - HIGH_FIRST)]
    else true
  }

  /** Whether WRMSR of `msr` causes a VM exit under the bitmap `b`. */
  predicate WriteExits(b: seq<bool>, msr: nat)
    requires |b| == PAGE_BITS
  {
    if InLowRange(msr) then b[WRITE_LOW + msr]
    else if InHighRange(msr) then b[WRITE_HIGH + (msr - HIGH_FIRST)]
    else true
  }

  /**
   * The bitmap after __vmx_disable_intercept_for_msr: in the low range the
   * read-low and write-low bits of the MSR are cleared; in the high range the
   * MSR is reduced to its low 13 bits and the read-high and write-high bits
   * cleared; any other MSR leaves the bitmap as it was.
   */
  function DisableIntercept(b: seq<bool>, msr: nat): (r: seq<bool>)
    requires |b| == PAGE_BITS
    ensures |r| == PAGE_BITS
  {
    if InLowRange(msr) then b[READ_LOW + msr := false][WRITE_LOW + msr := false]
    else if InHighRange(msr) then
      var low13 := msr % 0x2000;
      b[READ_HIGH + low13 := false][WRITE_HIGH + low13 := false]
    else b
  }

  /**
   * Disabling the intercept for `msr` lets RDMSR and WRMSR of that MSR run
   * without an exit when it is controllable, and changes whether any other
   * MSR exits in neither direction.
   */
  lemma DisableInterceptEffect(b: seq<bool>, msr: nat, other: nat)
    requires |b| == PAGE_BITS && msr < 0x1_0000_0000
    ensures ReadExits(DisableIntercept(b, msr), other)
            == (ReadExits(b, other) && !(other == msr && (InLowRange(msr) || InHighRange(msr))))
    ensures WriteExits(DisableIntercept(b, msr), other)
            == (WriteExits(b, other) && !(other == msr && (InLowRange(msr) || InHighRange(msr))))
  {
    if InHighRange(msr) {
      assert msr % 0x2000 == msr - HIGH_FIRST;
    }
  }

  /** __vmx_disable_intercept_for_msr on the bitmap page, bit by bit in place. */
  method DisableInterceptForMsr(bitmap: array<bool>, msr: nat)
    requires bitmap.Length == PAGE_BITS && msr < 0x1_0000_0000
    modifies bitmap
    ensures bitmap[..] == DisableIntercept(old(bitmap[..]), msr)
  {
    if msr <= LOW_LAST {
      bitmap[READ_LOW + msr] := false;
      bitmap[WRITE_LOW + msr] := false;
    } else if HIGH_FIRST <= msr && msr <= HIGH_LAST {
      var low13 := msr % 0x2000;
      bitmap[READ_HIGH + low13] := false;
      bitmap[WRITE_HIGH + low13] := false;
    }
  }
}
