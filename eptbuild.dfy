/**
 * The tables vt_ept_2M_init builds: a 1:1 map of guest-physical to
 * host-physical memory, rounded up to whole GBytes, with one PML4 page, one
 * PDPT page, one PD page per GByte of 2-MByte leaves, and one PT page of
 * 4-KByte leaves for the first 2 MBytes.
 */
module EptBuild {
  import opened Words
  import opened EptEntry
  import opened EptWalk

  /** At most one PDPT, so at most 512 GBytes are mapped. */
  const PML4E_MAP_LIMIT: nat := 512

  /** `(size + (GIGABYTE - 1)) & ~(GIGABYTE - 1)`: rounded up to a whole GByte. */
  function RoundUpGb(size: nat): (r: nat)
    ensures r % GIGABYTE == 0
    ensures size <= r < size + GIGABYTE
  {
    var s := size + (GIGABYTE - 1);
    s - s % GIGABYTE
  }

  /** How many PD pages the map needs: one per GByte of the rounded size. */
  function PdCount(size: nat): nat { RoundUpGb(size) / GIGABYTE }

  /** A page after memset(0). */
  function ZeroPage(): (r: seq<nat>)
    ensures |r| == N_ENTRIES && forall i :: 0 <= i < N_ENTRIES ==> r[i] == 0
  {
    seq(N_ENTRIES, _ => 0)
  }

  /** The PT for the first 2 MBytes: entry i maps the 4-KByte page at i << 12. */
  function PtPage(): seq<nat> {
    seq(N_ENTRIES, i requires 0 <= i => PtLeaf(i * PAGE_SIZE))
  }

  /** What PD entry i of PD page k maps: the 2-MByte frame i + 512 * k. */
  function PdTarget(k: nat, i: nat): nat {
    (i + k * N_ENTRIES) * PAGESIZE2M
  }

  /**
   * The value the source stores as the target of PD entry i of PD page k.
   * `i + k * n_entries` is an unsigned int, so the shift by 21 wraps at 2^32.
   */
  function PdTargetAsWritten(k: nat, i: nat): (r: nat)
    ensures r < U32_LIMIT && r % PAGESIZE2M == 0
    ensures r == PdTarget(k, i) <==> PdTarget(k, i) < U32_LIMIT
  {
    var x := i + k * N_ENTRIES;
    WrappedAligned(x);
    (x * PAGESIZE2M) % U32_LIMIT
  }

  /** `x << 21` truncated to 32 bits keeps only the low 11 bits of x, still 2-MByte aligned. */
  lemma WrappedAligned(x: nat)
    ensures (x * PAGESIZE2M) % U32_LIMIT == (x % 2048) * PAGESIZE2M
    ensures ((x * PAGESIZE2M) % U32_LIMIT) % PAGESIZE2M == 0
  {
    var q, m := x / 2048, x % 2048;
    assert x * PAGESIZE2M == q * U32_LIMIT + m * PAGESIZE2M;
    assert m * PAGESIZE2M < U32_LIMIT;
    assert (m * PAGESIZE2M) % PAGESIZE2M == 0;
  }

  /** Below 4 GBytes the 32-bit computation gives the intended frame. */
  lemma PdTargetAsWrittenBelow4G(k: nat, i: nat)
    requires k < 4 && i < N_ENTRIES
    ensures PdTargetAsWritten(k, i) == PdTarget(k, i)
  {
  }

  /**
   * With a fifth GByte the 32-bit computation wraps: PD page 4, entry 0
   * should map guest 4 GBytes to host 4 GBytes, but the leaf written maps
   * it to host address 0.
   */
  lemma PdTargetAsWrittenWraps()
    ensures PdTarget(4, 0) == 4 * GIGABYTE
    ensures PdTargetAsWritten(4, 0) == 0
    ensures AddrField(PdLeaf(PdTargetAsWritten(4, 0)), PAGESIZE2M) == 0
  {
    DecodePdLeaf(0);
  }

  /** PD page k as written, with the corrected target. */
  function PdPage(k: nat): seq<nat> {
    seq(N_ENTRIES, i requires 0 <= i => PdLeaf(PdTarget(k, i)))
  }

  /**
   * PD page k as the source writes it: every entry is a 2-MByte RWX leaf
   * for the 32-bit-wrapped target, and no_cache_region is asked about the
   * wrapped address as well.
   */
  function PdPageAsWritten(k: nat): (r: seq<nat>)
    ensures |r| == N_ENTRIES
    ensures forall i :: 0 <= i < N_ENTRIES ==>
              && Present(r[i]) && IsLarge(r[i]) && Permissions(r[i]) == EPT_RWX
              && AddrField(r[i], PAGESIZE2M) == PdTargetAsWritten(k, i)
              && MemoryType(r[i]) == if NoCacheRegion(PdTargetAsWritten(k, i)) == 0 then 6 else 0
  {
    var r := seq(N_ENTRIES, i requires 0 <= i => PdLeaf(PdTargetAsWritten(k, i)));
    assert forall i :: 0 <= i < N_ENTRIES ==>
              && Present(r[i]) && IsLarge(r[i]) && Permissions(r[i]) == EPT_RWX
              && AddrField(r[i], PAGESIZE2M) == PdTargetAsWritten(k, i)
              && MemoryType(r[i]) == if NoCacheRegion(PdTargetAsWritten(k, i)) == 0 then 6 else 0
    by {
      forall i | 0 <= i < N_ENTRIES {
        DecodePdLeaf(PdTargetAsWritten(k, i));
      }
    }
    r
  }

  /** For the first four GBytes the page as written is the intended page. */
  lemma PdPageAsWrittenBelow4G(k: nat)
    requires k < 4
    ensures PdPageAsWritten(k) == PdPage(k)
  {
    forall i | 0 <= i < N_ENTRIES
      ensures PdPageAsWritten(k)[i] == PdPage(k)[i]
    {
      PdTargetAsWrittenBelow4G(k, i);
    }
  }

  /**
   * The fifth PD page as written differs from the intended one: its entry 0
   * maps host address 0 where the identity map needs host 4 GBytes.
   */
  lemma PdPageAsWrittenWraps()
    ensures AddrField(PdPageAsWritten(4)[0], PAGESIZE2M) == 0
    ensures AddrField(PdPage(4)[0], PAGESIZE2M) == 4 * GIGABYTE
    ensures PdPageAsWritten(4) != PdPage(4)
  {
    PdTargetAsWrittenWraps();
    TargetAligned(4, 0);
    DecodePdLeaf(PdTarget(4, 0));
  }

  /** PD page 0 after its entry 0 is pointed at the PT. */
  function FirstPdPage(pt: nat): seq<nat> {
    PdPage(0)[0 := TableEntry(pt)]
  }

  function PdptPage(pds: seq<nat>): seq<nat> {
    seq(N_ENTRIES, k requires 0 <= k => if k < |pds| then TableEntry(pds[k]) else 0)
  }

  function Pml4Page(pdpt: nat): seq<nat> {
    seq(N_ENTRIES, i => if i == 0 then TableEntry(pdpt) else 0)
  }

  /** Root, PDPT, PT and PD pages, pairwise distinct. */
  predicate BuiltPagesDistinct(root: nat, pt: nat, pdpt: nat, pds: seq<nat>) {
    && root != pdpt && root != pt && pdpt != pt
    && (forall k :: 0 <= k < |pds| ==> pds[k] != root && pds[k] != pdpt && pds[k] != pt)
    && (forall k1, k2 :: 0 <= k1 < k2 < |pds| ==> pds[k1] != pds[k2])
  }

  /** The arena holds exactly what vt_ept_2M_init writes on success. */
  predicate Built(t: Tables, root: nat, pt: nat, pdpt: nat, pds: seq<nat>) {
    && 1 <= |pds| <= PML4E_MAP_LIMIT
    && TablePage(t, root) && TablePage(t, pdpt) && TablePage(t, pt)
    && (forall k :: 0 <= k < |pds| ==> TablePage(t, pds[k]))
    && BuiltPagesDistinct(root, pt, pdpt, pds)
    && t[pt] == PtPage()
    && t[pds[0]] == FirstPdPage(pt)
    && (forall k :: 1 <= k < |pds| ==> t[pds[k]] == PdPage(k))
    && t[pdpt] == PdptPage(pds)
    && t[root] == Pml4Page(pdpt)
  }

  function BuiltLayout(pt: nat, pdpt: nat, pds: seq<nat>): Layout {
    Layout(pdpt, pds, map[0 := pt])
  }

  lemma TargetAligned(k: nat, i: nat)
    requires k < PML4E_MAP_LIMIT && i < N_ENTRIES
    ensures PdTarget(k, i) % PAGESIZE2M == 0 && PdTarget(k, i) < ADDR_LIMIT
  {
    var x := i + k * N_ENTRIES;
    assert x < 512 * 512;
    MulAligned(x);
  }

  lemma MulAligned(x: nat)
    requires x < 512 * 512
    ensures (x * PAGESIZE2M) % PAGESIZE2M == 0 && x * PAGESIZE2M < ADDR_LIMIT
  {
  }

  lemma PtAligned(i: nat)
    requires i < N_ENTRIES
    ensures (i * PAGE_SIZE) % PAGE_SIZE == 0 && i * PAGE_SIZE < ADDR_LIMIT
  {
  }

  /** The built tables have the layout split_2M_mapping and replace_ept_page work on. */
  lemma {:induction false} BuiltIsShaped(t: Tables, root: nat, pt: nat, pdpt: nat, pds: seq<nat>)
    requires Built(t, root, pt, pdpt, pds)
    ensures Shaped(t, root, BuiltLayout(pt, pdpt, pds))
  {
    var l := BuiltLayout(pt, pdpt, pds);
    forall k, i | 0 <= k < |pds| && 0 <= i < N_ENTRIES
      ensures PdEntryShaped(Entry(t, l.pds[k], i), 512 * k + i, l.pts)
    {
      if k != 0 || i != 0 {
        TargetAligned(k, i);
        DecodePdLeaf(PdTarget(k, i));
        assert Entry(t, l.pds[k], i) == PdLeaf(PdTarget(k, i));
      }
    }
    forall j, i | j in l.pts && 0 <= i < N_ENTRIES
      ensures LeafEntry(Entry(t, l.pts[j], i)) && !IsLarge(Entry(t, l.pts[j], i))
    {
      PtAligned(i);
      DecodePtLeaf(i * PAGE_SIZE);
    }
  }

  /** The leaf the identity map uses for `gpa`: 4-KByte below 2 MBytes, 2-MByte above. */
  function IdentityLeaf(gpa: nat): nat {
    if gpa < PAGESIZE2M then PtLeaf(gpa - gpa % PAGE_SIZE) else PdLeaf(gpa - gpa % PAGESIZE2M)
  }

  lemma FrameBase(gpa: nat)
    ensures Frame(gpa) * PAGESIZE2M == gpa - gpa % PAGESIZE2M
  {
  }

  lemma LowPage(gpa: nat)
    requires gpa < PAGESIZE2M
    ensures PtSlot(gpa) * PAGE_SIZE == gpa - gpa % PAGE_SIZE
    ensures PtSlot(gpa) < N_ENTRIES
  {
  }

  /**
   * After vt_ept_2M_init every guest-physical address below the rounded
   * extent translates to itself through IdentityLeaf, and every address
   * above it is unmapped.
   */
  lemma {:induction false} IdentityMap(t: Tables, root: nat, pt: nat, pdpt: nat, pds: seq<nat>, gpa: nat)
    requires Built(t, root, pt, pdpt, pds)
    ensures gpa < |pds| * GIGABYTE ==> Walk(t, root, gpa) == Some(Translation(gpa, IdentityLeaf(gpa)))
    ensures gpa >= |pds| * GIGABYTE ==> Walk(t, root, gpa) == None
  {
    var l := BuiltLayout(pt, pdpt, pds);
    BuiltIsShaped(t, root, pt, pdpt, pds);
    ShapedWalk(t, root, l, gpa);
    if gpa < PAGESIZE2M {
      IdentityLow(t, root, pt, pdpt, pds, gpa);
    } else if gpa < |pds| * GIGABYTE {
      IdentityHigh(t, root, pt, pdpt, pds, gpa);
    }
  }

  lemma IdentityLow(t: Tables, root: nat, pt: nat, pdpt: nat, pds: seq<nat>, gpa: nat)
    requires Built(t, root, pt, pdpt, pds)
    requires gpa < PAGESIZE2M
    ensures LayoutSize(BuiltLayout(pt, pdpt, pds), gpa) == PAGE_SIZE
    ensures LayoutLeaf(t, BuiltLayout(pt, pdpt, pds), gpa) == IdentityLeaf(gpa)
    ensures LeafTranslation(IdentityLeaf(gpa), PAGE_SIZE, gpa) == Translation(gpa, IdentityLeaf(gpa))
  {
    LowPage(gpa);
    var a := gpa - gpa % PAGE_SIZE;
    assert Frame(gpa) == 0;
    assert Entry(t, pt, PtSlot(gpa)) == PtLeaf(a);
    DecodePtLeaf(a);
  }

  lemma IdentityHigh(t: Tables, root: nat, pt: nat, pdpt: nat, pds: seq<nat>, gpa: nat)
    requires Built(t, root, pt, pdpt, pds)
    requires PAGESIZE2M <= gpa < |pds| * GIGABYTE
    ensures LayoutSize(BuiltLayout(pt, pdpt, pds), gpa) == PAGESIZE2M
    ensures LayoutLeaf(t, BuiltLayout(pt, pdpt, pds), gpa) == IdentityLeaf(gpa)
    ensures LeafTranslation(IdentityLeaf(gpa), PAGESIZE2M, gpa) == Translation(gpa, IdentityLeaf(gpa))
  {
    SourceIndices(gpa);
    var k := gpa / GIGABYTE;
    var i := PdSlot(gpa);
    FrameBase(gpa);
    var a := gpa - gpa % PAGESIZE2M;
    assert Frame(gpa) != 0;
    assert PdTarget(k, i) == a;
    TargetAligned(k, i);
    assert Entry(t, pds[k], i) == PdLeaf(a);
    DecodePdLeaf(a);
  }

  /**
   * Attributes of the identity map's leaves: always R, W and X; the 2-MByte
   * bit everywhere except in the first 2 MBytes; write-back (memory type 6)
   * exactly where no_cache_region returns 0 for the leaf's frame, and
   * uncached (memory type 0) elsewhere.
   */
  lemma {:induction false} IdentityLeafAttributes(gpa: nat)
    requires gpa < PML4_SPAN
    ensures Permissions(IdentityLeaf(gpa)) == EPT_RWX
    ensures IsLarge(IdentityLeaf(gpa)) <==> gpa >= PAGESIZE2M
    ensures var frame := if gpa < PAGESIZE2M then gpa - gpa % PAGE_SIZE else gpa - gpa % PAGESIZE2M;
      MemoryType(IdentityLeaf(gpa)) == if NoCacheRegion(frame) == 0 then 6 else 0
  {
    if gpa < PAGESIZE2M {
      LowPage(gpa);
      PtAligned(PtSlot(gpa));
      DecodePtLeaf(gpa - gpa % PAGE_SIZE);
    } else {
      FrameBase(gpa);
      SourceIndices(gpa);
      TargetAligned(gpa / GIGABYTE, PdSlot(gpa));
      assert PdTarget(gpa / GIGABYTE, PdSlot(gpa)) == gpa - gpa % PAGESIZE2M;
      DecodePdLeaf(gpa - gpa % PAGESIZE2M);
    }
  }
}
