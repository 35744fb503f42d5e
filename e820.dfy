/**
 * e820_end_paddr: the highest physical address the EPT map must cover,
 * taken from the firmware's E820 memory map.
 *
 * Every region counts, whatever its type, so that holes such as the local
 * APIC page are mapped too. Region ends are computed in 64-bit unsigned
 * arithmetic, and the result is capped at MAXMEM.
 */
module E820 {
  import opened Words

  const PAGE_SHIFT_SIZE: nat := 4096
  /** MAXMEM on x86-64 with 4-level paging: 2^46 bytes. */
  const MAXMEM: nat := 0x4000_0000_0000
  const MAX_ARCH_PFN: nat := MAXMEM / PAGE_SHIFT_SIZE

  /** One e820entry: a region's start address and size (its type is not consulted). */
  datatype E820Entry = E820Entry(addr: nat, size: nat)

  predicate WellFormed(m: seq<E820Entry>) {
    forall e <- m :: IsU64(e.addr) && IsU64(e.size)
  }

  function StartPfn(e: E820Entry): nat { e.addr / PAGE_SHIFT_SIZE }
  /** `(addr + size) >> PAGE_SHIFT` with the addition wrapping at 2^64. */
  function EndPfn(e: E820Entry): nat { ((e.addr + e.size) % U64_LIMIT) / PAGE_SHIFT_SIZE }

  function Min(a: nat, b: nat): nat { if a <= b then a else b }
  function Max(a: nat, b: nat): nat { if a >= b then a else b }

  /** What one region contributes: nothing if it starts at or above the limit, else its end clipped to the limit. */
  function Contribution(e: E820Entry, limitPfn: nat): nat {
    if StartPfn(e) >= limitPfn then 0 else Min(EndPfn(e), limitPfn)
  }

  /** The largest contribution of any region: the last page frame to map. */
  function LastPfn(m: seq<E820Entry>, limitPfn: nat): (r: nat)
    ensures r <= limitPfn
  {
    if m == [] then 0
    else Max(LastPfn(m[..|m| - 1], limitPfn), Contribution(m[|m| - 1], limitPfn))
  }

  /** LastPfn is the maximum: it bounds every contribution and is one of them (or 0). */
  lemma {:induction false} LastPfnIsMaximum(m: seq<E820Entry>, limitPfn: nat)
    ensures forall e <- m :: Contribution(e, limitPfn) <= LastPfn(m, limitPfn)
    ensures LastPfn(m, limitPfn) == 0 || exists e <- m :: Contribution(e, limitPfn) == LastPfn(m, limitPfn)
  {
    if m != [] {
      var init := m[..|m| - 1];
      LastPfnIsMaximum(init, limitPfn);
      assert m == init + [m[|m| - 1]];
      if LastPfn(m, limitPfn) != Contribution(m[|m| - 1], limitPfn) {
        assert LastPfn(m, limitPfn) == LastPfn(init, limitPfn);
      }
    }
  }

  /** The reference value e820_end_paddr returns. */
  function EndPaddr(m: seq<E820Entry>, limitPfn: nat): nat {
    Min(LastPfn(m, limitPfn), MAX_ARCH_PFN) * PAGE_SHIFT_SIZE
  }

  /** A region that reaches the limit decides the result: nothing can exceed the limit. */
  lemma {:induction false} ReachingLimit(m: seq<E820Entry>, limitPfn: nat, j: nat)
    requires j < |m| && Contribution(m[j], limitPfn) == limitPfn
    ensures LastPfn(m, limitPfn) == limitPfn
  {
    LastPfnIsMaximum(m, limitPfn);
    assert m[j] in m;
  }

  /**
   * The loop of e820_end_paddr, with its early exit when a region runs past
   * the limit. It returns a page-aligned address no larger than
   * min(limitPfn, MAXMEM >> PAGE_SHIFT) << PAGE_SHIFT.
   */
  method E820EndPaddr(m: seq<E820Entry>, limitPfn: nat) returns (paddr: nat)
    requires WellFormed(m)
    ensures paddr == EndPaddr(m, limitPfn)
    ensures paddr % PAGE_SHIFT_SIZE == 0
    ensures paddr <= Min(limitPfn, MAX_ARCH_PFN) * PAGE_SHIFT_SIZE
  {
    var lastPfn: nat := 0;
    var i := 0;
    while i < |m|
      invariant i <= |m|
      invariant lastPfn == LastPfn(m[..i], limitPfn)
    {
      var ei := m[i];
      var startPfn := StartPfn(ei);
      var endPfn := EndPfn(ei);
      PrefixStep(m, limitPfn, i);
      if startPfn >= limitPfn {
        i := i + 1;
        continue;
      }
      if endPfn > limitPfn {
        lastPfn := limitPfn;
        ReachingLimit(m, limitPfn, i);
        assert m[..|m|] == m;
        break;
      }
      if endPfn > lastPfn {
        lastPfn := endPfn;
      }
      i := i + 1;
    }
    assert lastPfn == LastPfn(m, limitPfn) by {
      if i == |m| { assert m[..i] == m; }
    }
    if lastPfn > MAX_ARCH_PFN {
      lastPfn := MAX_ARCH_PFN;
    }
    paddr := lastPfn * PAGE_SHIFT_SIZE;
    ScaleBound(lastPfn, Min(limitPfn, MAX_ARCH_PFN));
  }

  lemma PrefixStep(m: seq<E820Entry>, limitPfn: nat, i: nat)
    requires i < |m|
    ensures LastPfn(m[..i + 1], limitPfn) == Max(LastPfn(m[..i], limitPfn), Contribution(m[i], limitPfn))
  {
    assert m[..i + 1][..i] == m[..i];
  }

  lemma ScaleBound(pfn: nat, bound: nat)
    requires pfn <= bound
    ensures (pfn * PAGE_SHIFT_SIZE) % PAGE_SHIFT_SIZE == 0
    ensures pfn * PAGE_SHIFT_SIZE <= bound * PAGE_SHIFT_SIZE
  {
  }
}
