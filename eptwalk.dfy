/**
 * The EPT tables as the processor walks them, and as the okernel code
 * indexes them in find_pd_entry and find_pt_entry.
 *
 * Physical memory holding EPT tables is an arena: a map from the physical
 * address of a page to its 512 entries. A page that is not in the map reads
 * as absent entries, so a walk through it fails.
 */
module EptWalk {
  import opened Words
  import opened EptEntry

  datatype Option<T> = None | Some(value: T)

  /** Guest-physical addresses are 48 bits wide under a 4-level EPT. */
  const GPA_LIMIT: nat := 0x1_0000_0000_0000

  type Tables = map<nat, seq<nat>>

  /** A page address: 4-KByte aligned and inside the entries' address field. */
  predicate PageAddr(p: nat) {
    p % PAGE_SIZE == 0 && p < ADDR_LIMIT
  }

  /** `p` holds an EPT table in the arena. */
  predicate TablePage(t: Tables, p: nat) {
    p in t && |t[p]| == N_ENTRIES && PageAddr(p)
  }

  /** Entry `i` of the page at `page`; 0 (absent) when there is no such table. */
  function Entry(t: Tables, page: nat, i: nat): nat {
    if page in t && i < |t[page]| then t[page][i] else 0
  }

  // The slots the processor uses at each level: 9 bits of the address each.
  function Pml4Slot(gpa: nat): nat { (gpa / PML4_SPAN) % N_ENTRIES }
  function PdptSlot(gpa: nat): nat { (gpa / GIGABYTE) % N_ENTRIES }
  function PdSlot(gpa: nat): nat { (gpa / PAGESIZE2M) % N_ENTRIES }
  function PtSlot(gpa: nat): nat { (gpa / PAGE_SIZE) % N_ENTRIES }

  /** Where a guest-physical address lands, and the leaf entry that decided it. */
  datatype Translation = Translation(hpa: nat, leaf: nat)

  /** The translation a leaf mapping `size` bytes gives `gpa`. */
  function LeafTranslation(e: nat, size: nat, gpa: nat): (r: Translation)
    requires size == PAGE_SIZE || size == PAGESIZE2M || size == GIGABYTE
    ensures r.hpa % size == gpa % size
  {
    LeafOffset(e, size, gpa);
    Translation(AddrField(e, size) + gpa % size, e)
  }

  lemma LeafOffset(e: nat, size: nat, gpa: nat)
    requires size == PAGE_SIZE || size == PAGESIZE2M || size == GIGABYTE
    ensures (AddrField(e, size) + gpa % size) % size == gpa % size
  {
    var low := e % ADDR_LIMIT;
    if size == PAGE_SIZE {
      DownPlus4K(low, gpa % size);
    } else if size == PAGESIZE2M {
      DownPlus2M(low, gpa % size);
    } else {
      DownPlus1G(low, gpa % size);
    }
  }

  lemma DownPlus4K(x: nat, off: nat)
    requires off < PAGE_SIZE
    ensures (x - x % PAGE_SIZE + off) % PAGE_SIZE == off
  {
    assert x - x % PAGE_SIZE == PAGE_SIZE * (x / PAGE_SIZE);
  }

  lemma DownPlus2M(x: nat, off: nat)
    requires off < PAGESIZE2M
    ensures (x - x % PAGESIZE2M + off) % PAGESIZE2M == off
  {
    assert x - x % PAGESIZE2M == PAGESIZE2M * (x / PAGESIZE2M);
  }

  lemma DownPlus1G(x: nat, off: nat)
    requires off < GIGABYTE
    ensures (x - x % GIGABYTE + off) % GIGABYTE == off
  {
    assert x - x % GIGABYTE == GIGABYTE * (x / GIGABYTE);
  }

  /** The bytes one entry maps at each level: 4 KBytes (PT) up to 512 GBytes (PML4). */
  function LevelSize(level: nat): nat
    requires 1 <= level <= 4
  {
    if level == 1 then PAGE_SIZE
    else if level == 2 then PAGESIZE2M
    else if level == 3 then GIGABYTE
    else PML4_SPAN
  }

  function LevelSlot(gpa: nat, level: nat): nat
    requires 1 <= level <= 4
  {
    (gpa / LevelSize(level)) % N_ENTRIES
  }

  /**
   * The EPT walk of section 28.2.2 of the Intel SDM, Vol. 3C, from a table
   * at `level` (4 = PML4, 1 = PT): a non-present entry (bits 2:0 clear) ends
   * the walk, bit 7 in a PDPT or PD entry makes it a leaf, a PT entry is
   * always a leaf, and otherwise the entry's address names the next table.
   */
  function WalkFrom(t: Tables, table: nat, gpa: nat, level: nat): (r: Option<Translation>)
    requires 1 <= level <= 4
    ensures r.Some? ==> Present(r.value.leaf)
    ensures r.Some? ==> r.value.hpa % PAGE_SIZE == gpa % PAGE_SIZE
    decreases level
  {
    var e := Entry(t, table, LevelSlot(gpa, level));
    if !Present(e) then None
    else if level == 1 then Some(LeafTranslation(e, PAGE_SIZE, gpa))
    else if level <= 3 && IsLarge(e) then Some(OffsetLarge(e, LevelSize(level), gpa))
    else WalkFrom(t, AddrField(e, PAGE_SIZE), gpa, level - 1)
  }

  /** The walk from the EPT root; addresses beyond the 48-bit width are not translated. */
  function Walk(t: Tables, root: nat, gpa: nat): (r: Option<Translation>)
    ensures r.Some? ==> gpa < GPA_LIMIT && Present(r.value.leaf)
    ensures r.Some? ==> r.value.hpa % PAGE_SIZE == gpa % PAGE_SIZE
  {
    if gpa >= GPA_LIMIT then None else WalkFrom(t, root, gpa, 4)
  }

  /** A large leaf's translation; its 4-KByte offset is the address's. */
  function OffsetLarge(e: nat, size: nat, gpa: nat): (r: Translation)
    requires size == PAGESIZE2M || size == GIGABYTE
    ensures r == LeafTranslation(e, size, gpa)
    ensures r.hpa % PAGE_SIZE == gpa % PAGE_SIZE
  {
    var r := LeafTranslation(e, size, gpa);
    SubPageOffset(r.hpa, gpa, size);
    r
  }

  lemma SubPageOffset(a: nat, b: nat, size: nat)
    requires size == PAGESIZE2M || size == GIGABYTE
    requires a % size == b % size
    ensures a % PAGE_SIZE == b % PAGE_SIZE
  {
    var qa, qb := a / size, b / size;
    assert a == size * qa + a % size;
    assert b == size * qb + b % size;
    if size == PAGESIZE2M {
      Mod4K(512 * qa, a % size);
      Mod4K(512 * qb, b % size);
    } else {
      Mod4K(0x4_0000 * qa, a % size);
      Mod4K(0x4_0000 * qb, b % size);
    }
  }

  lemma Mod4K(q: nat, r: nat)
    ensures (PAGE_SIZE * q + r) % PAGE_SIZE == r % PAGE_SIZE
  {
  }

  // Index arithmetic as find_pd_entry and find_pt_entry write it.

  /** `(paddr & ~(GIGABYTE - 1)) >> GIGABYTE_SHIFT` */
  function Pml3Index(paddr: nat): nat { (paddr - paddr % GIGABYTE) / GIGABYTE }
  /** `(paddr & (GIGABYTE - 1)) >> PAGESIZE2M_SHIFT` */
  function Pml2Index(paddr: nat): nat { (paddr % GIGABYTE) / PAGESIZE2M }
  /** `(paddr & (PAGESIZE2M - 1)) >> PAGESIZE_SHIFT` */
  function Pml1Index(paddr: nat): nat { (paddr % PAGESIZE2M) / PAGE_SIZE }

  /** The 2-MByte frame an address lies in. */
  function Frame(gpa: nat): nat { gpa / PAGESIZE2M }

  /** `addr & ~(PAGESIZE - 1)`: the start of the 4-KByte page holding `addr`. */
  function PageBase(addr: nat): (r: nat)
    ensures r <= addr && r % PAGE_SIZE == 0 && addr - r < PAGE_SIZE
  {
    addr - addr % PAGE_SIZE
  }

  /** Splitting a frame number back into its PDPT and PD slots. */
  lemma FrameDecode(gpa: nat, k: nat, i: nat)
    requires gpa < PML4_SPAN && i < N_ENTRIES && Frame(gpa) == 512 * k + i
    ensures gpa / GIGABYTE == k && PdSlot(gpa) == i
  {
    SourceIndices(gpa);
  }

  lemma GbQuotient(k: nat, r: nat)
    requires r < GIGABYTE
    ensures (GIGABYTE * k + r) / PAGESIZE2M == 512 * k + r / PAGESIZE2M
  {
  }

  lemma LargeQuotientSplit(j: nat, r: nat)
    requires r < PAGESIZE2M
    ensures (PAGESIZE2M * j + r) / PAGE_SIZE == 512 * j + r / PAGE_SIZE
  {
  }

  lemma Mod512(k: nat, s: nat)
    requires s < 512
    ensures (512 * k + s) % 512 == s
  {
  }

  /**
   * Below 512 GBytes, the indices the source computes are the slots the
   * processor uses: PML4 slot 0, then `paddr >> 30`, then 9 bits each.
   */
  lemma {:induction false} SourceIndices(paddr: nat)
    requires paddr < PML4_SPAN
    ensures Pml4Slot(paddr) == 0
    ensures Pml3Index(paddr) == PdptSlot(paddr) == paddr / GIGABYTE
    ensures Pml2Index(paddr) == PdSlot(paddr)
    ensures Pml1Index(paddr) == PtSlot(paddr)
    ensures Frame(paddr) == 512 * PdptSlot(paddr) + PdSlot(paddr)
  {
    var k := paddr / GIGABYTE;
    var r := paddr % GIGABYTE;
    assert paddr == GIGABYTE * k + r;
    assert k < 512;
    assert paddr - r == GIGABYTE * k;
    GbQuotient(k, r);
    Mod512(k, r / PAGESIZE2M);
    var j := paddr / PAGESIZE2M;
    var s := paddr % PAGESIZE2M;
    assert paddr == PAGESIZE2M * j + s;
    LargeQuotientSplit(j, s);
    Mod512(j, s / PAGE_SIZE);
  }

  /** A location in the arena: a table page and an entry index in it. */
  datatype Slot = Slot(page: nat, index: nat)

  /**
   * find_pd_entry: the PD entry for `paddr`, reached from PML4 entry 0. It
   * agrees with the processor's walk below 512 GBytes.
   */
  function FindPdEntry(t: Tables, root: nat, paddr: nat): (s: Slot)
    ensures s.index < N_ENTRIES
    ensures paddr < PML4_SPAN ==>
      s == Slot(AddrField(Entry(t, AddrField(Entry(t, root, Pml4Slot(paddr)), PAGE_SIZE), PdptSlot(paddr)), PAGE_SIZE), PdSlot(paddr))
  {
    if paddr < PML4_SPAN then SourceIndices(paddr); PdEntryAt(t, root, paddr)
    else PdEntryAt(t, root, paddr)
  }

  function PdEntryAt(t: Tables, root: nat, paddr: nat): (s: Slot)
    ensures s.index < N_ENTRIES
  {
    var pml3 := AddrField(Entry(t, root, 0), PAGE_SIZE);
    var pml2 := AddrField(Entry(t, pml3, Pml3Index(paddr)), PAGE_SIZE);
    Slot(pml2, Pml2Index(paddr))
  }

  /**
   * find_pt_entry: the PT entry for `paddr`, from the PD entry find_pd_entry
   * finds. Its BUG_ON, on the PT's first entry carrying the 2-MByte bit, is
   * the None case.
   */
  function FindPtEntry(t: Tables, root: nat, paddr: nat): (r: Option<Slot>)
    ensures r.Some? ==> r.value.index < N_ENTRIES
    ensures r.Some? <==> !IsLarge(Entry(t, PtPageOf(t, root, paddr), 0))
    ensures r.Some? && paddr < PML4_SPAN ==> r.value == Slot(PtPageOf(t, root, paddr), PtSlot(paddr))
  {
    var pml1 := PtPageOf(t, root, paddr);
    if IsLarge(Entry(t, pml1, 0)) then None
    else if paddr < PML4_SPAN then SourceIndices(paddr); Some(Slot(pml1, Pml1Index(paddr)))
    else Some(Slot(pml1, Pml1Index(paddr)))
  }

  /** The page the PD entry for `paddr` points to. */
  function PtPageOf(t: Tables, root: nat, paddr: nat): nat {
    var pd := FindPdEntry(t, root, paddr);
    AddrField(Entry(t, pd.page, pd.index), PAGE_SIZE)
  }

  /**
   * The shape vt_ept_2M_init builds and split_2M_mapping and replace_ept_page
   * keep: one PML4 whose entry 0 names the PDPT, a PDPT whose first |pds|
   * entries name one PD page per GByte, and PD entries that are either
   * 2-MByte leaves or name a PT page; `pts` says which 2-MByte frames are
   * split and into which PT page.
   */
  datatype Layout = Layout(pdpt: nat, pds: seq<nat>, pts: map<nat, nat>)

  function Extent(l: Layout): nat { |l.pds| * GIGABYTE }

  /** Every table in the layout is a page of its own. */
  predicate PagesDistinct(root: nat, l: Layout) {
    && root != l.pdpt
    && (forall k :: 0 <= k < |l.pds| ==> l.pds[k] != root && l.pds[k] != l.pdpt)
    && (forall j :: j in l.pts ==> l.pts[j] != root && l.pts[j] != l.pdpt)
    && (forall k1, k2 :: 0 <= k1 < k2 < |l.pds| ==> l.pds[k1] != l.pds[k2])
    && (forall j1, j2 :: j1 in l.pts && j2 in l.pts && j1 != j2 ==> l.pts[j1] != l.pts[j2])
    && (forall k, j :: 0 <= k < |l.pds| && j in l.pts ==> l.pds[k] != l.pts[j])
  }

  predicate PagesPresent(t: Tables, root: nat, l: Layout) {
    && TablePage(t, root)
    && TablePage(t, l.pdpt)
    && (forall k :: 0 <= k < |l.pds| ==> TablePage(t, l.pds[k]))
    && (forall j :: j in l.pts ==> TablePage(t, l.pts[j]))
  }

  /** A leaf the code writes: readable, writable and executable, inside the address field. */
  predicate LeafEntry(e: nat) {
    Permissions(e) == EPT_RWX && e < ADDR_LIMIT
  }

  predicate UpperLinks(t: Tables, root: nat, l: Layout) {
    && |l.pds| <= N_ENTRIES
    && Entry(t, root, 0) == TableEntry(l.pdpt)
    && (forall i :: 1 <= i < N_ENTRIES ==> Entry(t, root, i) == 0)
    && (forall k :: 0 <= k < |l.pds| ==> Entry(t, l.pdpt, k) == TableEntry(l.pds[k]))
    && (forall k :: |l.pds| <= k < N_ENTRIES ==> Entry(t, l.pdpt, k) == 0)
  }

  predicate PdLinks(t: Tables, l: Layout) {
    && (forall j :: j in l.pts ==> j < |l.pds| * N_ENTRIES)
    && (forall k, i :: 0 <= k < |l.pds| && 0 <= i < N_ENTRIES ==>
          PdEntryShaped(Entry(t, l.pds[k], i), 512 * k + i, l.pts))
  }

  /** PD entry for frame `j`: a table reference when the frame is split, else a 2-MByte leaf. */
  predicate PdEntryShaped(e: nat, j: nat, pts: map<nat, nat>) {
    if j in pts then e == TableEntry(pts[j]) else LeafEntry(e) && IsLarge(e)
  }

  predicate PtLeaves(t: Tables, l: Layout) {
    forall j, i :: j in l.pts && 0 <= i < N_ENTRIES ==> LeafEntry(Entry(t, l.pts[j], i)) && !IsLarge(Entry(t, l.pts[j], i))
  }

  predicate Shaped(t: Tables, root: nat, l: Layout) {
    && PagesPresent(t, root, l)
    && PagesDistinct(root, l)
    && UpperLinks(t, root, l)
    && PdLinks(t, l)
    && PtLeaves(t, l)
  }

  /** The leaf entry the layout assigns to `gpa`, and the size it maps. */
  function LayoutLeaf(t: Tables, l: Layout, gpa: nat): nat
    requires gpa < Extent(l)
  {
    var k := gpa / GIGABYTE;
    if Frame(gpa) in l.pts then Entry(t, l.pts[Frame(gpa)], PtSlot(gpa))
    else Entry(t, l.pds[k], PdSlot(gpa))
  }

  function LayoutSize(l: Layout, gpa: nat): nat {
    if Frame(gpa) in l.pts then PAGE_SIZE else PAGESIZE2M
  }

  /**
   * In shaped tables the walk of an address inside the extent reads only the
   * layout's leaf for it; every address outside the extent is unmapped.
   */
  lemma ShapedWalk(t: Tables, root: nat, l: Layout, gpa: nat)
    requires Shaped(t, root, l)
    ensures gpa < Extent(l) ==>
      Walk(t, root, gpa) == Some(LeafTranslation(LayoutLeaf(t, l, gpa), LayoutSize(l, gpa), gpa))
    ensures gpa >= Extent(l) ==> Walk(t, root, gpa) == None
  {
    if gpa >= GPA_LIMIT {
    } else if gpa >= PML4_SPAN {
      WalkBeyondPml4(t, root, l, gpa);
    } else {
      SourceIndices(gpa);
      WalkThroughRoot(t, root, l, gpa);
      if gpa / GIGABYTE >= |l.pds| {
        WalkBeyondPds(t, root, l, gpa);
      } else {
        WalkThroughPdpt(t, root, l, gpa);
        WalkThroughPd(t, root, l, gpa);
        assert gpa < Extent(l);
      }
    }
  }

  /** Beyond 512 GBytes the PML4 entry is empty. */
  lemma WalkBeyondPml4(t: Tables, root: nat, l: Layout, gpa: nat)
    requires Shaped(t, root, l) && PML4_SPAN <= gpa < GPA_LIMIT
    ensures Walk(t, root, gpa) == None
  {
    Pml4Beyond(gpa);
    assert Entry(t, root, LevelSlot(gpa, 4)) == 0;
  }

  /** Past the last GByte with a PD the PDPT entry is empty. */
  lemma WalkBeyondPds(t: Tables, root: nat, l: Layout, gpa: nat)
    requires Shaped(t, root, l) && gpa < PML4_SPAN && gpa / GIGABYTE >= |l.pds|
    requires PdptSlot(gpa) == gpa / GIGABYTE
    ensures WalkFrom(t, l.pdpt, gpa, 3) == None
  {
    assert Entry(t, l.pdpt, LevelSlot(gpa, 3)) == 0;
  }

  /** Below 512 GBytes the walk goes through PML4 entry 0 to the PDPT. */
  lemma WalkThroughRoot(t: Tables, root: nat, l: Layout, gpa: nat)
    requires Shaped(t, root, l) && gpa < PML4_SPAN && Pml4Slot(gpa) == 0
    ensures Walk(t, root, gpa) == WalkFrom(t, l.pdpt, gpa, 3)
  {
    DecodeTableEntry(l.pdpt);
    assert Entry(t, root, LevelSlot(gpa, 4)) == TableEntry(l.pdpt);
  }

  /** Inside the extent the PDPT entry for the address names the PD of its GByte. */
  lemma WalkThroughPdpt(t: Tables, root: nat, l: Layout, gpa: nat)
    requires Shaped(t, root, l) && gpa < PML4_SPAN && gpa / GIGABYTE < |l.pds|
    requires PdptSlot(gpa) == gpa / GIGABYTE
    ensures WalkFrom(t, l.pdpt, gpa, 3) == WalkFrom(t, l.pds[gpa / GIGABYTE], gpa, 2)
  {
    var pd := l.pds[gpa / GIGABYTE];
    assert TablePage(t, pd);
    DecodeTableEntry(pd);
    assert Entry(t, l.pdpt, LevelSlot(gpa, 3)) == TableEntry(pd);
  }

  /** The PD entry for the address is its 2-MByte leaf, or names the PT whose entry is its 4-KByte leaf. */
  lemma WalkThroughPd(t: Tables, root: nat, l: Layout, gpa: nat)
    requires Shaped(t, root, l) && gpa < Extent(l)
    requires Frame(gpa) == 512 * (gpa / GIGABYTE) + PdSlot(gpa)
    ensures WalkFrom(t, l.pds[gpa / GIGABYTE], gpa, 2) ==
      Some(LeafTranslation(LayoutLeaf(t, l, gpa), LayoutSize(l, gpa), gpa))
  {
    var k := gpa / GIGABYTE;
    var pd := l.pds[k];
    var i := PdSlot(gpa);
    assert PdEntryShaped(Entry(t, pd, i), 512 * k + i, l.pts);
    if Frame(gpa) in l.pts {
      var pt := l.pts[Frame(gpa)];
      DecodeTableEntry(pt);
      assert Entry(t, pd, LevelSlot(gpa, 2)) == TableEntry(pt);
      assert WalkFrom(t, pd, gpa, 2) == WalkFrom(t, pt, gpa, 1);
      assert LeafEntry(Entry(t, pt, PtSlot(gpa)));
    } else {
      assert WalkFrom(t, pd, gpa, 2) == Some(LeafTranslation(Entry(t, pd, PdSlot(gpa)), PAGESIZE2M, gpa));
    }
  }

  lemma ExtentPages(l: Layout, gpa: nat)
    requires gpa < Extent(l)
    ensures gpa / GIGABYTE < |l.pds|
  {
  }

  lemma Pml4Beyond(gpa: nat)
    requires PML4_SPAN <= gpa < GPA_LIMIT
    ensures 1 <= Pml4Slot(gpa) < N_ENTRIES
  {
  }

  /** `e & ~(PAGESIZE - 1)` and the address field agree on entries below bit 52. */
  lemma AddrFieldIsPageBase(e: nat)
    requires e < ADDR_LIMIT
    ensures AddrField(e, PAGE_SIZE) == PageBase(e)
  {
  }

  /**
   * In shaped tables find_pd_entry lands on the layout's PD entry for the
   * address, and find_pt_entry, for a split frame, on its PT entry.
   */
  lemma {:induction false} ShapedFind(t: Tables, root: nat, l: Layout, paddr: nat)
    requires Shaped(t, root, l) && paddr < Extent(l)
    ensures paddr / GIGABYTE < |l.pds|
    ensures FindPdEntry(t, root, paddr) == Slot(l.pds[paddr / GIGABYTE], PdSlot(paddr))
    ensures l.pds[paddr / GIGABYTE] in t && PdSlot(paddr) < |t[l.pds[paddr / GIGABYTE]]|
    ensures var e := t[l.pds[paddr / GIGABYTE]][PdSlot(paddr)];
      if Frame(paddr) in l.pts then e == TableEntry(l.pts[Frame(paddr)]) && !IsLarge(e)
      else LeafEntry(e) && IsLarge(e)
    ensures Frame(paddr) in l.pts ==>
      FindPtEntry(t, root, paddr) == Some(Slot(l.pts[Frame(paddr)], PtSlot(paddr)))
  {
    SourceIndices(paddr);
    ExtentPages(l, paddr);
    var k := paddr / GIGABYTE;
    var pd := l.pds[k];
    assert TablePage(t, pd);
    DecodeTableEntry(l.pdpt);
    DecodeTableEntry(pd);
    assert Entry(t, root, Pml4Slot(paddr)) == TableEntry(l.pdpt);
    assert Entry(t, l.pdpt, PdptSlot(paddr)) == TableEntry(pd);
    assert PdEntryShaped(Entry(t, pd, PdSlot(paddr)), 512 * k + PdSlot(paddr), l.pts);
    if Frame(paddr) in l.pts {
      var pt := l.pts[Frame(paddr)];
      DecodeTableEntry(pt);
      assert PtPageOf(t, root, paddr) == pt;
      assert !IsLarge(Entry(t, pt, 0));
    }
  }
}
