/**
 * What split_2M_mapping and replace_ept_page do to shaped tables, as pure
 * functions of the arena, and what that does to the translation.
 */
module EptEdit {
  import opened Words
  import opened EptEntry
  import opened EptWalk

  /** `*pml2_e & ~(PAGESIZE2M - 1)`: the 2-MByte frame a large leaf maps. */
  function SplitBase(e: nat): nat { e - e % PAGESIZE2M }

  /** The PT split_2M_mapping fills: entry i maps base + i * 4096, cache bits per 4-KByte page. */
  function SplitPage(base: nat): seq<nat> {
    seq(N_ENTRIES, i requires 0 <= i => PtLeaf(base + i * PAGE_SIZE))
  }

  /** The arena after the new PT is filled and PD entry i of page pd is pointed at it. */
  function SplitTables(t: Tables, pd: nat, i: nat, newPt: nat): Tables
    requires pd in t && i < |t[pd]|
  {
    var row: seq<nat> := t[pd][i := TableEntry(newPt)];
    t[newPt := SplitPage(SplitBase(t[pd][i]))][pd := row]
  }

  /** `*pml1_p = phys | R | W | X | CACHE_2 | CACHE_3` for PT page pt, entry i. */
  function ReplaceTables(t: Tables, pt: nat, i: nat, newPage: nat): Tables
    requires pt in t && i < |t[pt]|
  {
    var row: seq<nat> := t[pt][i := ReplacedLeaf(newPage)];
    t[pt := row]
  }

  /** Where a walk sends an address and with which permissions; None when it is unmapped. */
  datatype Target = Target(hpa: nat, perms: nat)

  function TargetOf(w: Option<Translation>): Option<Target> {
    if w.None? then None else Some(Target(w.value.hpa, Permissions(w.value.leaf)))
  }

  /** Two walks agree on where an address goes and with which permissions. */
  predicate SameTarget(a: Option<Translation>, b: Option<Translation>) {
    TargetOf(a) == TargetOf(b)
  }

  lemma SplitBaseFacts(e: nat)
    requires e < ADDR_LIMIT
    ensures SplitBase(e) % PAGESIZE2M == 0
    ensures SplitBase(e) + PAGESIZE2M <= ADDR_LIMIT
    ensures AddrField(e, PAGESIZE2M) == SplitBase(e)
  {
    var q := e / PAGESIZE2M;
    assert e == PAGESIZE2M * q + e % PAGESIZE2M;
    assert q < 0x8000_0000;
  }

  lemma SubPage(base: nat, i: nat)
    requires base % PAGESIZE2M == 0 && base + PAGESIZE2M <= ADDR_LIMIT && i < N_ENTRIES
    ensures (base + i * PAGE_SIZE) % PAGE_SIZE == 0 && base + i * PAGE_SIZE < ADDR_LIMIT
  {
    var q := base / PAGESIZE2M;
    assert base == PAGESIZE2M * q;
    assert base + i * PAGE_SIZE == PAGE_SIZE * (512 * q + i);
  }

  /** An address's 2-MByte offset is its PT slot's page plus its 4-KByte offset. */
  lemma InFrame(gpa: nat)
    ensures PtSlot(gpa) * PAGE_SIZE + gpa % PAGE_SIZE == gpa % PAGESIZE2M
    ensures gpa / PAGE_SIZE == 512 * Frame(gpa) + PtSlot(gpa)
  {
    var q := gpa / PAGESIZE2M;
    var r := gpa % PAGESIZE2M;
    assert gpa == PAGESIZE2M * q + r;
    LargeQuotientSplit(q, r);
    Mod512(q, r / PAGE_SIZE);
    PageOffsetOf(q, r);
  }

  lemma PageOffsetOf(q: nat, r: nat)
    ensures (PAGESIZE2M * q + r) % PAGE_SIZE == r % PAGE_SIZE
  {
    assert PAGESIZE2M * q + r == PAGE_SIZE * (512 * q) + r;
    Mod4K(512 * q, r);
  }

  lemma AlignedPlusOffset(x: nat, off: nat)
    requires x % PAGE_SIZE == 0 && off < PAGE_SIZE
    ensures (x + off) % PAGE_SIZE == off && (x + off) - (x + off) % PAGE_SIZE == x
  {
  }

  /** Entry reads after a split: only the PD entry and the new PT differ. */
  lemma SplitEntry(t: Tables, pd: nat, i: nat, newPt: nat, p: nat, x: nat)
    requires pd in t && i < |t[pd]| && newPt !in t
    ensures Entry(SplitTables(t, pd, i, newPt), p, x) ==
      if p == pd && x == i then TableEntry(newPt)
      else if p == newPt then (if x < N_ENTRIES then PtLeaf(SplitBase(t[pd][i]) + x * PAGE_SIZE) else 0)
      else Entry(t, p, x)
  {
  }

  lemma SplitPagesPresent(t: Tables, root: nat, l: Layout, pd: nat, i: nat, newPt: nat, j: nat)
    requires PagesPresent(t, root, l) && pd in t && i < |t[pd]|
    requires newPt !in t && PageAddr(newPt)
    ensures PagesPresent(SplitTables(t, pd, i, newPt), root, l.(pts := l.pts[j := newPt]))
  {
  }

  lemma SplitPagesDistinct(t: Tables, root: nat, l: Layout, newPt: nat, j: nat)
    requires PagesPresent(t, root, l) && PagesDistinct(root, l)
    requires newPt !in t && j !in l.pts
    ensures PagesDistinct(root, l.(pts := l.pts[j := newPt]))
  {
    forall k' | 0 <= k' < |l.pds| ensures l.pds[k'] != newPt {
      assert TablePage(t, l.pds[k']);
    }
    forall j' | j' in l.pts ensures l.pts[j'] != newPt {
      assert TablePage(t, l.pts[j']);
    }
  }

  lemma SplitUpperLinks(t: Tables, root: nat, l: Layout, pd: nat, i: nat, newPt: nat, j: nat)
    requires UpperLinks(t, root, l) && pd in t && i < |t[pd]| && newPt !in t
    requires pd != root && pd != l.pdpt && newPt != root && newPt != l.pdpt
    ensures UpperLinks(SplitTables(t, pd, i, newPt), root, l.(pts := l.pts[j := newPt]))
  {
    forall x | 0 <= x < N_ENTRIES
      ensures Entry(SplitTables(t, pd, i, newPt), root, x) == Entry(t, root, x)
      ensures Entry(SplitTables(t, pd, i, newPt), l.pdpt, x) == Entry(t, l.pdpt, x)
    {
      SplitEntry(t, pd, i, newPt, root, x);
      SplitEntry(t, pd, i, newPt, l.pdpt, x);
    }
  }

  lemma SplitPdLinks(t: Tables, l: Layout, k: nat, i: nat, newPt: nat)
    requires PdLinks(t, l)
    requires k < |l.pds| && i < N_ENTRIES && 512 * k + i !in l.pts
    requires l.pds[k] in t && i < |t[l.pds[k]]| && newPt !in t
    requires forall k1, k2 :: 0 <= k1 < k2 < |l.pds| ==> l.pds[k1] != l.pds[k2]
    requires forall k' :: 0 <= k' < |l.pds| ==> l.pds[k'] != newPt
    ensures PdLinks(SplitTables(t, l.pds[k], i, newPt), l.(pts := l.pts[512 * k + i := newPt]))
  {
    var t' := SplitTables(t, l.pds[k], i, newPt);
    var l' := l.(pts := l.pts[512 * k + i := newPt]);
    forall k', i' | 0 <= k' < |l'.pds| && 0 <= i' < N_ENTRIES
      ensures PdEntryShaped(Entry(t', l'.pds[k'], i'), 512 * k' + i', l'.pts)
    {
      SplitEntry(t, l.pds[k], i, newPt, l.pds[k'], i');
      if k' != k || i' != i {
        assert PdEntryShaped(Entry(t, l.pds[k'], i'), 512 * k' + i', l.pts);
        assert l.pds[k'] == l.pds[k] ==> k' == k;
      }
    }
  }

  lemma SplitPtLeaves(t: Tables, l: Layout, pd: nat, i: nat, newPt: nat, j: nat)
    requires PtLeaves(t, l)
    requires pd in t && i < |t[pd]| && newPt !in t && j !in l.pts
    requires t[pd][i] < ADDR_LIMIT
    requires forall j' :: j' in l.pts ==> l.pts[j'] != pd && l.pts[j'] != newPt
    ensures PtLeaves(SplitTables(t, pd, i, newPt), l.(pts := l.pts[j := newPt]))
  {
    var t' := SplitTables(t, pd, i, newPt);
    var l' := l.(pts := l.pts[j := newPt]);
    var base := SplitBase(t[pd][i]);
    SplitBaseFacts(t[pd][i]);
    forall j', i' | j' in l'.pts && 0 <= i' < N_ENTRIES
      ensures LeafEntry(Entry(t', l'.pts[j'], i')) && !IsLarge(Entry(t', l'.pts[j'], i'))
    {
      SplitEntry(t, pd, i, newPt, l'.pts[j'], i');
      if j' == j {
        SubPage(base, i');
        DecodePtLeaf(base + i' * PAGE_SIZE);
      }
    }
  }

  /** Split keeps the layout's shape, with frame 512 * k + i now split into newPt. */
  lemma {:induction false} SplitShaped(t: Tables, root: nat, l: Layout, k: nat, i: nat, j: nat, newPt: nat)
    requires j == 512 * k + i
    requires Shaped(t, root, l)
    requires k < |l.pds| && i < N_ENTRIES && j !in l.pts
    requires newPt !in t && PageAddr(newPt)
    ensures l.pds[k] in t && i < |t[l.pds[k]]|
    ensures Shaped(SplitTables(t, l.pds[k], i, newPt), root, l.(pts := l.pts[j := newPt]))
  {
    var pd := l.pds[k];
    assert TablePage(t, pd);
    assert PdEntryShaped(Entry(t, pd, i), j, l.pts);
    SplitPagesPresent(t, root, l, pd, i, newPt, j);
    SplitPagesDistinct(t, root, l, newPt, j);
    SplitUpperLinks(t, root, l, pd, i, newPt, j);
    SplitPdLinks(t, l, k, i, newPt);
    SplitPtLeaves(t, l, pd, i, newPt, j);
  }

  /** Where the layout puts an address after a split, outside the split frame. */
  lemma SplitLeafElsewhere(t: Tables, l: Layout, k: nat, i: nat, newPt: nat, gpa: nat)
    requires k < |l.pds| && i < N_ENTRIES && l.pds[k] in t && i < |t[l.pds[k]]| && newPt !in t
    requires gpa < Extent(l) && Frame(gpa) != 512 * k + i
    requires Frame(gpa) == 512 * (gpa / GIGABYTE) + PdSlot(gpa)
    requires forall k1, k2 :: 0 <= k1 < k2 < |l.pds| ==> l.pds[k1] != l.pds[k2]
    requires forall j' :: j' in l.pts ==> l.pts[j'] != l.pds[k] && l.pts[j'] != newPt
    requires forall k' :: 0 <= k' < |l.pds| ==> l.pds[k'] != newPt
    ensures var l' := l.(pts := l.pts[512 * k + i := newPt]);
      LayoutLeaf(SplitTables(t, l.pds[k], i, newPt), l', gpa) == LayoutLeaf(t, l, gpa) &&
      LayoutSize(l', gpa) == LayoutSize(l, gpa)
  {
    ExtentPages(l, gpa);
    var k' := gpa / GIGABYTE;
    if Frame(gpa) in l.pts {
      SplitEntry(t, l.pds[k], i, newPt, l.pts[Frame(gpa)], PtSlot(gpa));
    } else {
      SplitEntry(t, l.pds[k], i, newPt, l.pds[k'], PdSlot(gpa));
      if k' < k {
        assert l.pds[k'] != l.pds[k];
      } else if k < k' {
        assert l.pds[k] != l.pds[k'];
      } else {
        assert PdSlot(gpa) != i;
      }
    }
  }

  /** Inside the split frame: the 4-KByte leaf maps the page the 2-MByte leaf mapped. */
  lemma SplitLeafInside(t: Tables, l: Layout, k: nat, i: nat, j: nat, newPt: nat, gpa: nat)
    requires j == 512 * k + i
    requires k < |l.pds| && i < N_ENTRIES && l.pds[k] in t && i < |t[l.pds[k]]| && newPt !in t
    requires t[l.pds[k]][i] < ADDR_LIMIT
    requires gpa < Extent(l) && Frame(gpa) == j
    ensures var l' := l.(pts := l.pts[j := newPt]);
      var h := LeafTranslation(t[l.pds[k]][i], PAGESIZE2M, gpa).hpa;
      LeafTranslation(LayoutLeaf(SplitTables(t, l.pds[k], i, newPt), l', gpa), LayoutSize(l', gpa), gpa)
        == Translation(h, PtLeaf(PageBase(h))) &&
      Permissions(PtLeaf(PageBase(h))) == EPT_RWX
  {
    var e := t[l.pds[k]][i];
    SplitBaseFacts(e);
    var base := SplitBase(e);
    InFrame(gpa);
    var x := base + PtSlot(gpa) * PAGE_SIZE;
    SubPage(base, PtSlot(gpa));
    SplitEntry(t, l.pds[k], i, newPt, newPt, PtSlot(gpa));
    DecodePtLeaf(x);
    AlignedPlusOffset(x, gpa % PAGE_SIZE);
    assert PageBase(x + gpa % PAGE_SIZE) == x;
  }

  /** The walk after a split, read through the new layout. */
  lemma SplitWalkAfter(t: Tables, root: nat, l: Layout, k: nat, i: nat, j: nat, newPt: nat, gpa: nat)
    requires j == 512 * k + i
    requires Shaped(t, root, l)
    requires k < |l.pds| && i < N_ENTRIES && j !in l.pts
    requires newPt !in t && PageAddr(newPt)
    ensures l.pds[k] in t && i < |t[l.pds[k]]|
    ensures var l' := l.(pts := l.pts[j := newPt]);
      Walk(SplitTables(t, l.pds[k], i, newPt), root, gpa) ==
        if gpa < Extent(l') then Some(LeafTranslation(LayoutLeaf(SplitTables(t, l.pds[k], i, newPt), l', gpa), LayoutSize(l', gpa), gpa))
        else None
  {
    SplitShaped(t, root, l, k, i, j, newPt);
    ShapedWalk(SplitTables(t, l.pds[k], i, newPt), root, l.(pts := l.pts[j := newPt]), gpa);
  }

  /** Before the split, an address in frame 512 * k + i walks to that PD entry's 2-MByte leaf. */
  lemma SplitFrameBefore(t: Tables, root: nat, l: Layout, k: nat, i: nat, j: nat, gpa: nat)
    requires j == 512 * k + i
    requires Shaped(t, root, l)
    requires k < |l.pds| && i < N_ENTRIES && j !in l.pts && Frame(gpa) == j
    ensures l.pds[k] in t && i < |t[l.pds[k]]| && t[l.pds[k]][i] < ADDR_LIMIT && LeafEntry(t[l.pds[k]][i])
    ensures gpa < Extent(l)
    ensures Walk(t, root, gpa) == Some(LeafTranslation(t[l.pds[k]][i], PAGESIZE2M, gpa))
  {
    assert TablePage(t, l.pds[k]);
    assert PdEntryShaped(Entry(t, l.pds[k], i), j, l.pts);
    FrameInExtent(l, j, gpa);
    FrameDecode(gpa, k, i);
    ShapedWalk(t, root, l, gpa);
  }

  /** Layout facts split_2M_mapping relies on: the new page is none of the layout's. */
  lemma FreshPage(t: Tables, root: nat, l: Layout, newPt: nat)
    requires Shaped(t, root, l) && newPt !in t
    ensures forall j' :: j' in l.pts ==> l.pts[j'] != newPt
    ensures forall k' :: 0 <= k' < |l.pds| ==> l.pds[k'] != newPt
    ensures forall k1, k2 :: 0 <= k1 < k2 < |l.pds| ==> l.pds[k1] != l.pds[k2]
  {
    forall j' | j' in l.pts ensures l.pts[j'] != newPt {
      assert TablePage(t, l.pts[j']);
    }
    forall k' | 0 <= k' < |l.pds| ensures l.pds[k'] != newPt {
      assert TablePage(t, l.pds[k']);
    }
  }

  /**
   * Split keeps every translation: addresses outside the split frame walk
   * exactly as before, and each 4-KByte page inside it lands where the
   * 2-MByte leaf sent it, through a leaf whose cache bits no_cache_region
   * recomputes for that page.
   */
  lemma {:induction false} SplitWalk(t: Tables, root: nat, l: Layout, k: nat, i: nat, j: nat, newPt: nat, gpa: nat)
    requires j == 512 * k + i
    requires Shaped(t, root, l)
    requires k < |l.pds| && i < N_ENTRIES && j !in l.pts
    requires newPt !in t && PageAddr(newPt)
    ensures l.pds[k] in t && i < |t[l.pds[k]]|
    ensures Frame(gpa) != j ==>
      Walk(SplitTables(t, l.pds[k], i, newPt), root, gpa) == Walk(t, root, gpa)
    ensures Frame(gpa) == j ==>
      Walk(t, root, gpa).Some? &&
      var h := Walk(t, root, gpa).value.hpa;
      Walk(SplitTables(t, l.pds[k], i, newPt), root, gpa) == Some(Translation(h, PtLeaf(PageBase(h))))
    ensures SameTarget(Walk(SplitTables(t, l.pds[k], i, newPt), root, gpa), Walk(t, root, gpa))
  {
    if Frame(gpa) == j {
      SplitWalkInside(t, root, l, k, i, j, newPt, gpa);
    } else {
      SplitWalkOutside(t, root, l, k, i, j, newPt, gpa);
    }
  }

  /** SplitWalk inside the split frame. */
  lemma SplitWalkInside(t: Tables, root: nat, l: Layout, k: nat, i: nat, j: nat, newPt: nat, gpa: nat)
    requires j == 512 * k + i
    requires Shaped(t, root, l)
    requires k < |l.pds| && i < N_ENTRIES && j !in l.pts
    requires newPt !in t && PageAddr(newPt)
    requires Frame(gpa) == j
    ensures l.pds[k] in t && i < |t[l.pds[k]]|
    ensures Walk(t, root, gpa).Some? &&
      var h := Walk(t, root, gpa).value.hpa;
      Walk(SplitTables(t, l.pds[k], i, newPt), root, gpa) == Some(Translation(h, PtLeaf(PageBase(h))))
    ensures SameTarget(Walk(SplitTables(t, l.pds[k], i, newPt), root, gpa), Walk(t, root, gpa))
  {
    SplitWalkAfter(t, root, l, k, i, j, newPt, gpa);
    SplitFrameBefore(t, root, l, k, i, j, gpa);
    SplitLeafInside(t, l, k, i, j, newPt, gpa);
  }

  /** SplitWalk outside the split frame. */
  lemma SplitWalkOutside(t: Tables, root: nat, l: Layout, k: nat, i: nat, j: nat, newPt: nat, gpa: nat)
    requires j == 512 * k + i
    requires Shaped(t, root, l)
    requires k < |l.pds| && i < N_ENTRIES && j !in l.pts
    requires newPt !in t && PageAddr(newPt)
    requires Frame(gpa) != j
    ensures l.pds[k] in t && i < |t[l.pds[k]]|
    ensures Walk(SplitTables(t, l.pds[k], i, newPt), root, gpa) == Walk(t, root, gpa)
  {
    SplitWalkAfter(t, root, l, k, i, j, newPt, gpa);
    ShapedWalk(t, root, l, gpa);
    if gpa < Extent(l) {
      SourceIndices(gpa);
      assert TablePage(t, l.pds[k]);
      FreshPage(t, root, l, newPt);
      assert forall j' :: j' in l.pts ==> l.pts[j'] != l.pds[k] by {
        forall j' | j' in l.pts ensures l.pts[j'] != l.pds[k] {
        }
      }
      SplitLeafElsewhere(t, l, k, i, newPt, gpa);
    }
  }

  /** Replacing a PT entry keeps the shape. */
  lemma {:induction false} ReplaceShaped(t: Tables, root: nat, l: Layout, j: nat, i: nat, newPage: nat)
    requires Shaped(t, root, l)
    requires j in l.pts && i < N_ENTRIES && PageAddr(newPage)
    ensures l.pts[j] in t && i < |t[l.pts[j]]|
    ensures Shaped(ReplaceTables(t, l.pts[j], i, newPage), root, l)
  {
    var pt := l.pts[j];
    assert TablePage(t, pt);
    var t' := ReplaceTables(t, pt, i, newPage);
    DecodeReplacedLeaf(newPage);
    assert PagesPresent(t', root, l);
    forall i' | 0 <= i' < N_ENTRIES ensures Entry(t', root, i') == Entry(t, root, i') && Entry(t', l.pdpt, i') == Entry(t, l.pdpt, i') {
    }
    forall k', i' | 0 <= k' < |l.pds| && 0 <= i' < N_ENTRIES
      ensures PdEntryShaped(Entry(t', l.pds[k'], i'), 512 * k' + i', l.pts)
    {
      assert Entry(t', l.pds[k'], i') == Entry(t, l.pds[k'], i');
    }
    forall j', i' | j' in l.pts && 0 <= i' < N_ENTRIES
      ensures LeafEntry(Entry(t', l.pts[j'], i')) && !IsLarge(Entry(t', l.pts[j'], i'))
    {
      if j' != j || i' != i {
        assert Entry(t', l.pts[j'], i') == Entry(t, l.pts[j'], i');
      }
    }
  }

  /**
   * Replacing entry i of frame j's PT redirects exactly the 4-KByte page
   * 512 * j + i to the new page, write-back; every other address walks as before.
   */
  lemma {:induction false} ReplaceWalk(t: Tables, root: nat, l: Layout, j: nat, i: nat, newPage: nat, gpa: nat)
    requires Shaped(t, root, l)
    requires j in l.pts && i < N_ENTRIES && PageAddr(newPage)
    ensures l.pts[j] in t && i < |t[l.pts[j]]|
    ensures gpa / PAGE_SIZE == 512 * j + i ==>
      Walk(ReplaceTables(t, l.pts[j], i, newPage), root, gpa) == Some(Translation(newPage + gpa % PAGE_SIZE, ReplacedLeaf(newPage)))
    ensures gpa / PAGE_SIZE != 512 * j + i ==>
      Walk(ReplaceTables(t, l.pts[j], i, newPage), root, gpa) == Walk(t, root, gpa)
  {
    assert TablePage(t, l.pts[j]);
    ReplaceWalkAfter(t, root, l, j, i, newPage, gpa);
    InFrame(gpa);
    if gpa / PAGE_SIZE == 512 * j + i {
      ReplaceLeafInside(t, l, j, i, newPage, gpa);
    } else {
      ShapedWalk(t, root, l, gpa);
      if gpa < Extent(l) {
        ExtentPages(l, gpa);
        if Frame(gpa) in l.pts {
          assert TablePage(t, l.pts[Frame(gpa)]);
        }
        ReplaceLeafElsewhere(t, l, j, i, newPage, gpa);
      }
    }
  }

  /** The walk after a replacement, read through the (unchanged) layout. */
  lemma ReplaceWalkAfter(t: Tables, root: nat, l: Layout, j: nat, i: nat, newPage: nat, gpa: nat)
    requires Shaped(t, root, l)
    requires j in l.pts && i < N_ENTRIES && PageAddr(newPage)
    ensures l.pts[j] in t && i < |t[l.pts[j]]|
    ensures Walk(ReplaceTables(t, l.pts[j], i, newPage), root, gpa) ==
      if gpa < Extent(l) then Some(LeafTranslation(LayoutLeaf(ReplaceTables(t, l.pts[j], i, newPage), l, gpa), LayoutSize(l, gpa), gpa))
      else None
  {
    ReplaceShaped(t, root, l, j, i, newPage);
    ShapedWalk(ReplaceTables(t, l.pts[j], i, newPage), root, l, gpa);
  }

  lemma ReplaceLeafInside(t: Tables, l: Layout, j: nat, i: nat, newPage: nat, gpa: nat)
    requires j in l.pts && l.pts[j] in t && i < |t[l.pts[j]]| && i < N_ENTRIES && PageAddr(newPage)
    requires j < |l.pds| * N_ENTRIES
    requires gpa / PAGE_SIZE == 512 * j + i && gpa / PAGE_SIZE == 512 * Frame(gpa) + PtSlot(gpa)
    ensures gpa < Extent(l)
    ensures LeafTranslation(LayoutLeaf(ReplaceTables(t, l.pts[j], i, newPage), l, gpa), LayoutSize(l, gpa), gpa)
      == Translation(newPage + gpa % PAGE_SIZE, ReplacedLeaf(newPage))
  {
    Mod512(j, i);
    Mod512(Frame(gpa), PtSlot(gpa));
    assert Frame(gpa) == j && PtSlot(gpa) == i;
    FrameInExtent(l, j, gpa);
    DecodeReplacedLeaf(newPage);
  }

  lemma ReplaceLeafElsewhere(t: Tables, l: Layout, j: nat, i: nat, newPage: nat, gpa: nat)
    requires j in l.pts && l.pts[j] in t && i < |t[l.pts[j]]|
    requires gpa < Extent(l) && gpa / PAGE_SIZE != 512 * j + i && gpa / PAGE_SIZE == 512 * Frame(gpa) + PtSlot(gpa)
    requires forall j1, j2 :: j1 in l.pts && j2 in l.pts && j1 != j2 ==> l.pts[j1] != l.pts[j2]
    requires forall k, j' :: 0 <= k < |l.pds| && j' in l.pts ==> l.pds[k] != l.pts[j']
    ensures LayoutLeaf(ReplaceTables(t, l.pts[j], i, newPage), l, gpa) == LayoutLeaf(t, l, gpa)
  {
    ExtentPages(l, gpa);
  }

  lemma FrameInExtent(l: Layout, j: nat, gpa: nat)
    requires j < |l.pds| * N_ENTRIES && Frame(gpa) == j
    ensures gpa < Extent(l)
  {
  }

  /**
   * Split recomputes cache bits per 4-KByte page, so it can change a memory
   * type: the 2-MByte leaf at 0x3_FFE0_0000 is write-back (its start is below
   * END_PHYSICAL), while the page at 0x3_FFF0_0000 in the PT that replaces it
   * is uncached.
   */
  lemma SplitRecomputesCacheBits()
    ensures MemoryType(PdLeaf(0x3_FFE0_0000)) == 6
    ensures MemoryType(SplitPage(0x3_FFE0_0000)[256]) == 0
    ensures AddrField(SplitPage(0x3_FFE0_0000)[256], PAGE_SIZE) == 0x3_FFF0_0000
  {
    DecodePdLeaf(0x3_FFE0_0000);
    assert SplitPage(0x3_FFE0_0000)[256] == PtLeaf(0x3_FFF0_0000);
    DecodePtLeaf(0x3_FFF0_0000);
  }
}
