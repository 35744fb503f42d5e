/**
 * split_2M_mapping and replace_ept_page as functions of the arena and the
 * allocator's pool: what each returns, the arena after it, how many pool
 * pages it takes, and the layout of the result. The lemmas say what that
 * does to the translation.
 */
module EptOps {
  import opened Words
  import opened EptEntry
  import opened EptWalk
  import opened EptEdit

  /** Every page of the pool is a page address outside the tables. */
  predicate Fresh(t: Tables, pool: seq<nat>) {
    forall i :: 0 <= i < |pool| ==> PageAddr(pool[i]) && pool[i] !in t
  }

  /** A later layout: the same PDPT and PD pages, and every split frame still split into the same PT. */
  predicate Grows(l: Layout, l': Layout) {
    && l'.pdpt == l.pdpt && l'.pds == l.pds
    && (forall j :: j in l.pts ==> j in l'.pts && l'.pts[j] == l.pts[j])
  }

  /** The pages replace_ept_page takes from the pool for `paddr`: a PT when its frame is still a 2-MByte leaf, and the copy. */
  function PagesNeeded(l: Layout, paddr: nat): nat {
    if Frame(paddr) in l.pts then 1 else 2
  }

  /** What split_2M_mapping returns, the arena after it, the pool pages it takes, and the layout after it. */
  datatype SplitResult = SplitResult(code: int, tables: Tables, used: nat, layout: Layout)

  /**
   * split_2M_mapping: 0 for an address that is not 2-MByte aligned; 1,
   * changing nothing, when the PD entry find_pd_entry finds has no 2-MByte
   * bit; 0 when the pool is empty; otherwise the entry's range is split
   * into the pool's first page, and 1. The layout `l` is carried along and
   * records the new PT.
   */
  function SplitSpec(t: Tables, pool: seq<nat>, root: nat, l: Layout, paddr: nat): (s: SplitResult)
  {
    var pd := FindPdEntry(t, root, paddr);
    if paddr % PAGESIZE2M != 0 then SplitResult(0, t, 0, l)
    else if !IsLarge(Entry(t, pd.page, pd.index)) then SplitResult(1, t, 0, l)
    else if |pool| == 0 then SplitResult(0, t, 0, l)
    else
      assert pd.page in t && pd.index < |t[pd.page]| by { NoBitsOutside(t, pd.page, pd.index); }
      SplitResult(1, SplitTables(t, pd.page, pd.index, pool[0]), 1, l.(pts := l.pts[Frame(paddr) := pool[0]]))
  }

  /** An entry outside the arena reads as 0, which has no 2-MByte bit. */
  lemma NoBitsOutside(t: Tables, page: nat, i: nat)
    requires IsLarge(Entry(t, page, i))
    ensures page in t && i < |t[page]|
  {
  }

  /**
   * On shaped tables the PD entry split_2M_mapping tests is the one of the
   * layout, and its 2-MByte bit is set exactly when the frame is not split
   * yet.
   */
  lemma SplitOnShape(t: Tables, pool: seq<nat>, root: nat, l: Layout, paddr: nat)
    requires Shaped(t, root, l) && paddr < Extent(l)
    ensures paddr % PAGESIZE2M != 0 ==> SplitSpec(t, pool, root, l, paddr) == SplitResult(0, t, 0, l)
    ensures paddr % PAGESIZE2M == 0 && Frame(paddr) in l.pts ==> SplitSpec(t, pool, root, l, paddr) == SplitResult(1, t, 0, l)
    ensures paddr % PAGESIZE2M == 0 && Frame(paddr) !in l.pts && |pool| == 0 ==> SplitSpec(t, pool, root, l, paddr) == SplitResult(0, t, 0, l)
    ensures paddr % PAGESIZE2M == 0 && Frame(paddr) !in l.pts && |pool| > 0 ==>
      && paddr / GIGABYTE < |l.pds| && l.pds[paddr / GIGABYTE] in t && PdSlot(paddr) < |t[l.pds[paddr / GIGABYTE]]|
      && SplitSpec(t, pool, root, l, paddr) ==
         SplitResult(1, SplitTables(t, l.pds[paddr / GIGABYTE], PdSlot(paddr), pool[0]), 1, l.(pts := l.pts[Frame(paddr) := pool[0]]))
  {
    ShapedFind(t, root, l, paddr);
  }

  /**
   * The return codes of split_2M_mapping: 1 exactly for an aligned address
   * whose frame is split or can be; a page is taken exactly when a split
   * happens; otherwise nothing changes; after a 1 the frame is split.
   */
  lemma SplitCodes(t: Tables, pool: seq<nat>, root: nat, l: Layout, paddr: nat)
    requires Shaped(t, root, l) && paddr < Extent(l)
    ensures var s := SplitSpec(t, pool, root, l, paddr);
      && (s.code == 0 || s.code == 1)
      && (s.code == 1 <==> paddr % PAGESIZE2M == 0 && (Frame(paddr) in l.pts || |pool| > 0))
      && (s.used == 1 <==> paddr % PAGESIZE2M == 0 && Frame(paddr) !in l.pts && |pool| > 0)
      && s.used <= 1 && s.used <= |pool|
      && (s.used == 0 ==> s.tables == t && s.layout == l)
      && (s.code == 1 ==> Frame(paddr) in s.layout.pts)
      && Grows(l, s.layout)
  {
    SplitOnShape(t, pool, root, l, paddr);
  }

  /** split_2M_mapping keeps the tables shaped, under the new layout. */
  lemma SplitSpecShaped(t: Tables, pool: seq<nat>, root: nat, l: Layout, paddr: nat)
    requires Shaped(t, root, l) && paddr < Extent(l) && Fresh(t, pool)
    ensures Shaped(SplitSpec(t, pool, root, l, paddr).tables, root, SplitSpec(t, pool, root, l, paddr).layout)
  {
    SplitOnShape(t, pool, root, l, paddr);
    if paddr % PAGESIZE2M == 0 && Frame(paddr) !in l.pts && |pool| > 0 {
      var k, i := SplitIndices(t, root, l, paddr);
      SplitShaped(t, root, l, k, i, Frame(paddr), pool[0]);
    }
  }

  /**
   * What split_2M_mapping does to the translation: every address goes where
   * it went, with the same permissions; outside the frame nothing changes;
   * inside a frame that was split, every address is mapped by the 4-KByte
   * leaf for its page, whose cache bits no_cache_region recomputes.
   */
  lemma SplitSpecWalk(t: Tables, pool: seq<nat>, root: nat, l: Layout, paddr: nat)
    requires Shaped(t, root, l) && paddr < Extent(l) && Fresh(t, pool)
    ensures var s := SplitSpec(t, pool, root, l, paddr);
      && (forall gpa: nat :: SameTarget(Walk(s.tables, root, gpa), Walk(t, root, gpa)))
      && (forall gpa: nat :: Frame(gpa) != Frame(paddr) ==> Walk(s.tables, root, gpa) == Walk(t, root, gpa))
      && (s.used == 1 ==> forall gpa: nat :: Frame(gpa) == Frame(paddr) ==>
            Walk(t, root, gpa).Some? &&
            Walk(s.tables, root, gpa) == Some(Translation(Walk(t, root, gpa).value.hpa, PtLeaf(PageBase(Walk(t, root, gpa).value.hpa)))))
  {
    var s := SplitSpec(t, pool, root, l, paddr);
    forall gpa: nat
      ensures SameTarget(Walk(s.tables, root, gpa), Walk(t, root, gpa))
      ensures Frame(gpa) != Frame(paddr) ==> Walk(s.tables, root, gpa) == Walk(t, root, gpa)
      ensures s.used == 1 && Frame(gpa) == Frame(paddr) ==>
        Walk(t, root, gpa).Some? &&
        Walk(s.tables, root, gpa) == Some(Translation(Walk(t, root, gpa).value.hpa, PtLeaf(PageBase(Walk(t, root, gpa).value.hpa))))
    {
      SplitSpecWalkAt(t, pool, root, l, paddr, gpa);
    }
  }

  /** SplitSpecWalk for one address. */
  lemma SplitSpecWalkAt(t: Tables, pool: seq<nat>, root: nat, l: Layout, paddr: nat, gpa: nat)
    requires Shaped(t, root, l) && paddr < Extent(l) && Fresh(t, pool)
    ensures var s := SplitSpec(t, pool, root, l, paddr);
      && SameTarget(Walk(s.tables, root, gpa), Walk(t, root, gpa))
      && (Frame(gpa) != Frame(paddr) ==> Walk(s.tables, root, gpa) == Walk(t, root, gpa))
      && (s.used == 1 && Frame(gpa) == Frame(paddr) ==>
            Walk(t, root, gpa).Some? &&
            Walk(s.tables, root, gpa) == Some(Translation(Walk(t, root, gpa).value.hpa, PtLeaf(PageBase(Walk(t, root, gpa).value.hpa)))))
  {
    SplitOnShape(t, pool, root, l, paddr);
    if paddr % PAGESIZE2M == 0 && Frame(paddr) !in l.pts && |pool| > 0 {
      var k, i := SplitIndices(t, root, l, paddr);
      SplitWalk(t, root, l, k, i, Frame(paddr), pool[0], gpa);
    }
  }

  /** SplitSpec when it splits: PD entry i of GByte k now names the pool's first page. */
  lemma SplitSpecNew(t: Tables, pool: seq<nat>, root: nat, l: Layout, paddr: nat, k: nat, i: nat)
    requires Shaped(t, root, l) && paddr < Extent(l)
    requires paddr % PAGESIZE2M == 0 && Frame(paddr) !in l.pts && |pool| > 0
    requires k == paddr / GIGABYTE && i == PdSlot(paddr) && k < |l.pds|
    ensures l.pds[k] in t && i < |t[l.pds[k]]|
    ensures SplitSpec(t, pool, root, l, paddr) ==
      SplitResult(1, SplitTables(t, l.pds[k], i, pool[0]), 1, l.(pts := l.pts[Frame(paddr) := pool[0]]))
  {
    SplitOnShape(t, pool, root, l, paddr);
  }

  /** The PD slot split_2M_mapping rewrites, as the GByte and the entry within it. */
  lemma SplitIndices(t: Tables, root: nat, l: Layout, paddr: nat) returns (k: nat, i: nat)
    requires Shaped(t, root, l) && paddr < Extent(l)
    ensures k == paddr / GIGABYTE && i == PdSlot(paddr)
    ensures k < |l.pds| && i < N_ENTRIES && Frame(paddr) == 512 * k + i
  {
    ShapedFind(t, root, l, paddr);
    SourceIndices(paddr);
    k, i := paddr / GIGABYTE, PdSlot(paddr);
  }

  /** What replace_ept_page returns (the new page, or NULL), the arena after it, the pool pages it takes, and the layout after it. */
  datatype ReplaceResult = ReplaceResult(page: Option<nat>, tables: Tables, used: nat, layout: Layout)

  /**
   * The part of replace_ept_page after the split, with the first `used`
   * pages of the pool taken: NULL when find_pt_entry finds no PT entry;
   * NULL when the pool has no page left; NULL, keeping the page taken, when
   * the entry does not map exactly `paddr` (an entry outside the arena
   * counts as a mismatch); otherwise the entry is pointed at the new page.
   */
  function ReplaceLeafSpec(t: Tables, pool: seq<nat>, used: nat, root: nat, l: Layout, paddr: nat): (r: ReplaceResult)
    ensures r.layout == l
    ensures r.used <= 1 && (r.used == 1 ==> used < |pool|)
  {
    var slot := FindPtEntry(t, root, paddr);
    if slot.None? then ReplaceResult(None, t, 0, l)
    else
      var pt := slot.value.page;
      var i := slot.value.index;
      if used >= |pool| then ReplaceResult(None, t, 0, l)
      else if PageBase(Entry(t, pt, i)) != paddr || pt !in t || i >= |t[pt]| then ReplaceResult(None, t, 1, l)
      else ReplaceResult(Some(pool[used]), ReplaceTables(t, pt, i, pool[used]), 1, l)
  }

  /**
   * replace_ept_page: split the frame of `paddr` (NULL if that fails), then
   * ReplaceLeafSpec with what is left of the pool. The split and the page
   * taken stay on the NULL paths.
   */
  function ReplaceSpec(t: Tables, pool: seq<nat>, root: nat, l: Layout, paddr: nat): (r: ReplaceResult)
  {
    var s := SplitSpec(t, pool, root, l, paddr - paddr % PAGESIZE2M);
    if s.code == 0 then ReplaceResult(None, s.tables, s.used, s.layout)
    else
      var q := ReplaceLeafSpec(s.tables, pool, s.used, root, s.layout, paddr);
      ReplaceResult(q.page, q.tables, s.used + q.used, q.layout)
  }

  /** ReplaceSpec as the split followed by ReplaceLeafSpec on what the split left of the pool. */
  lemma ReplaceSpecParts(t: Tables, pool: seq<nat>, root: nat, l: Layout, paddr: nat)
    requires Shaped(t, root, l) && paddr < Extent(l)
    ensures var s := SplitSpec(t, pool, root, l, paddr - paddr % PAGESIZE2M);
      var r := ReplaceSpec(t, pool, root, l, paddr);
      && (s.code == 0 ==> r == ReplaceResult(None, s.tables, s.used, s.layout))
      && (s.code != 0 ==> s.used <= |pool| && Frame(paddr) in s.layout.pts)
      && (s.code != 0 ==>
            var q := ReplaceLeafSpec(s.tables, pool, s.used, root, s.layout, paddr);
            r == ReplaceResult(q.page, q.tables, s.used + q.used, q.layout))
  {
    SplitAddrFacts(l, paddr);
    SplitCodes(t, pool, root, l, paddr - paddr % PAGESIZE2M);
  }

  /** On shaped tables, the PT entry ReplaceLeafSpec reads is the leaf the walk of `paddr` uses. */
  lemma ReplaceLeafReturns(t0: Tables, t: Tables, pool: seq<nat>, used: nat, root: nat, l: Layout, paddr: nat)
    requires Shaped(t, root, l) && paddr < Extent(l) && Frame(paddr) in l.pts
    requires SameTarget(Walk(t, root, paddr), Walk(t0, root, paddr))
    ensures Walk(t0, root, paddr).Some?
    ensures var r := ReplaceLeafSpec(t, pool, used, root, l, paddr);
      && (r.page.Some? <==> used < |pool| && paddr % PAGE_SIZE == 0 && Walk(t0, root, paddr).value.hpa == paddr)
      && (used < |pool| ==> r.used == 1)
      && (r.page.Some? ==> r.page.value == pool[used])
      && (r.page.None? ==> r.tables == t)
  {
    ShapedFind(t, root, l, paddr);
    OrigMatchesAfterSplit(t0, t, root, l, paddr);
  }

  /** ReplaceLeafSpec keeps shaped tables shaped. */
  lemma ReplaceLeafShaped(t: Tables, pool: seq<nat>, used: nat, root: nat, l: Layout, paddr: nat)
    requires Shaped(t, root, l) && paddr < Extent(l) && Frame(paddr) in l.pts && (used < |pool| ==> PageAddr(pool[used]))
    ensures Shaped(ReplaceLeafSpec(t, pool, used, root, l, paddr).tables, root, l)
  {
    ShapedFind(t, root, l, paddr);
    if used < |pool| {
      ReplaceShaped(t, root, l, Frame(paddr), PtSlot(paddr), pool[used]);
    }
  }

  /** On success ReplaceLeafSpec maps the 4-KByte page of `paddr`, write-back, to the new page. */
  lemma ReplaceLeafRedirectAt(t: Tables, pool: seq<nat>, used: nat, root: nat, l: Layout, paddr: nat, gpa: nat)
    requires Shaped(t, root, l) && paddr < Extent(l) && Frame(paddr) in l.pts && (used < |pool| ==> PageAddr(pool[used]))
    ensures var r := ReplaceLeafSpec(t, pool, used, root, l, paddr);
      r.page.Some? && gpa / PAGE_SIZE == paddr / PAGE_SIZE ==>
        Walk(r.tables, root, gpa) == Some(Translation(r.page.value + gpa % PAGE_SIZE, ReplacedLeaf(r.page.value)))
  {
    ShapedFind(t, root, l, paddr);
    if used < |pool| {
      InFrame(paddr);
      ReplaceWalk(t, root, l, Frame(paddr), PtSlot(paddr), pool[used], gpa);
    }
  }

  /**
   * ReplaceLeafSpec moves no other page, composed with a split before it
   * that moved nothing outside the frame of `paddr` unless `wasSplit`.
   */
  lemma ReplaceLeafKeepsAt(t0: Tables, t: Tables, pool: seq<nat>, used: nat, root: nat, l: Layout, wasSplit: bool, paddr: nat, gpa: nat)
    requires Shaped(t, root, l) && paddr < Extent(l) && Frame(paddr) in l.pts && (used < |pool| ==> PageAddr(pool[used]))
    requires SameTarget(Walk(t, root, gpa), Walk(t0, root, gpa))
    requires Frame(gpa) != Frame(paddr) || wasSplit ==> Walk(t, root, gpa) == Walk(t0, root, gpa)
    ensures var r := ReplaceLeafSpec(t, pool, used, root, l, paddr);
      && (gpa / PAGE_SIZE != paddr / PAGE_SIZE ==> SameTarget(Walk(r.tables, root, gpa), Walk(t0, root, gpa)))
      && (gpa / PAGE_SIZE != paddr / PAGE_SIZE && (Frame(gpa) != Frame(paddr) || wasSplit) ==>
            Walk(r.tables, root, gpa) == Walk(t0, root, gpa))
      && (r.page.None? ==> SameTarget(Walk(r.tables, root, gpa), Walk(t0, root, gpa)))
  {
    ShapedFind(t, root, l, paddr);
    if used < |pool| {
      InFrame(paddr);
      ReplaceWalk(t, root, l, Frame(paddr), PtSlot(paddr), pool[used], gpa);
    }
  }

  /**
   * When replace_ept_page returns a page: exactly when the pool holds the
   * pages it needs, `paddr` is page aligned, and the walk mapped `paddr` to
   * itself. The page returned is the last one taken, and the frame of
   * `paddr` is split afterwards.
   */
  lemma ReplaceReturns(t: Tables, pool: seq<nat>, root: nat, l: Layout, paddr: nat)
    requires Shaped(t, root, l) && paddr < Extent(l) && Fresh(t, pool)
    ensures Walk(t, root, paddr).Some?
    ensures var r := ReplaceSpec(t, pool, root, l, paddr);
      && (r.page.Some? <==>
            PagesNeeded(l, paddr) <= |pool| && paddr % PAGE_SIZE == 0 && Walk(t, root, paddr).value.hpa == paddr)
      && r.used <= |pool|
      && (r.page.Some? ==> r.used == PagesNeeded(l, paddr) && r.page.value == pool[r.used - 1])
      && (r.page.Some? ==> Frame(paddr) in r.layout.pts)
      && Grows(l, r.layout)
  {
    if Frame(paddr) in l.pts {
      ReturnsInSplitFrame(t, pool, root, l, paddr);
    } else if |pool| == 0 {
      ReplaceSplitFails(t, pool, root, l, paddr);
      SplitFrameWalks(t, root, l, paddr);
    } else {
      ReturnsAfterNewSplit(t, pool, root, l, paddr);
    }
  }

  /** replace_ept_page returns NULL, changing nothing, when the frame of `paddr` needs a split and the pool is empty. */
  lemma ReplaceSplitFails(t: Tables, pool: seq<nat>, root: nat, l: Layout, paddr: nat)
    requires Shaped(t, root, l) && paddr < Extent(l)
    requires Frame(paddr) !in l.pts && |pool| == 0
    ensures ReplaceSpec(t, pool, root, l, paddr) == ReplaceResult(None, t, 0, l)
  {
    SplitAddrFacts(l, paddr);
  }

  /** A shaped walk maps every address below the extent. */
  lemma SplitFrameWalks(t: Tables, root: nat, l: Layout, paddr: nat)
    requires Shaped(t, root, l) && paddr < Extent(l)
    ensures Walk(t, root, paddr).Some?
  {
    ShapedWalk(t, root, l, paddr);
  }

  /** ReplaceReturns when the frame of `paddr` is already split. */
  lemma ReturnsInSplitFrame(t: Tables, pool: seq<nat>, root: nat, l: Layout, paddr: nat)
    requires Shaped(t, root, l) && paddr < Extent(l) && Fresh(t, pool)
    requires Frame(paddr) in l.pts
    ensures Walk(t, root, paddr).Some?
    ensures var r := ReplaceSpec(t, pool, root, l, paddr);
      && (r.page.Some? <==>
            PagesNeeded(l, paddr) <= |pool| && paddr % PAGE_SIZE == 0 && Walk(t, root, paddr).value.hpa == paddr)
      && r.used <= |pool|
      && (r.page.Some? ==> r.used == PagesNeeded(l, paddr) && r.page.value == pool[r.used - 1])
      && (r.page.Some? ==> Frame(paddr) in r.layout.pts)
      && Grows(l, r.layout)
  {
    var a := paddr - paddr % PAGESIZE2M;
    SplitAddrFacts(l, paddr);
    SplitCodes(t, pool, root, l, a);
    ReplaceSpecParts(t, pool, root, l, paddr);
    assert SplitSpec(t, pool, root, l, a) == SplitResult(1, t, 0, l);
    ReplaceLeafReturns(t, t, pool, 0, root, l, paddr);
  }

  /** ReplaceReturns when the split takes the pool's first page. */
  lemma ReturnsAfterNewSplit(t: Tables, pool: seq<nat>, root: nat, l: Layout, paddr: nat)
    requires Shaped(t, root, l) && paddr < Extent(l) && Fresh(t, pool)
    requires Frame(paddr) !in l.pts && |pool| > 0
    ensures Walk(t, root, paddr).Some?
    ensures var r := ReplaceSpec(t, pool, root, l, paddr);
      && (r.page.Some? <==>
            PagesNeeded(l, paddr) <= |pool| && paddr % PAGE_SIZE == 0 && Walk(t, root, paddr).value.hpa == paddr)
      && r.used <= |pool|
      && (r.page.Some? ==> r.used == PagesNeeded(l, paddr) && r.page.value == pool[r.used - 1])
      && (r.page.Some? ==> Frame(paddr) in r.layout.pts)
      && Grows(l, r.layout)
  {
    var k, i := ReplaceSpecNewSplit(t, pool, root, l, paddr);
    SplitFrameBefore(t, root, l, k, i, Frame(paddr), paddr);
    NewSplitFinds(t, pool, root, l, k, i, paddr);
    NewSplitLeafReturns(t, pool, root, l, k, i, paddr);
  }

  /** After split_2M_mapping splits the frame of `paddr` into the pool's first page, find_pt_entry reads that page. */
  lemma NewSplitFinds(t: Tables, pool: seq<nat>, root: nat, l: Layout, k: nat, i: nat, paddr: nat)
    requires Shaped(t, root, l) && paddr < Extent(l) && Fresh(t, pool)
    requires k < |l.pds| && i < N_ENTRIES && Frame(paddr) == 512 * k + i && Frame(paddr) !in l.pts && |pool| > 0
    ensures l.pds[k] in t && i < |t[l.pds[k]]|
    ensures FindPtEntry(SplitTables(t, l.pds[k], i, pool[0]), root, paddr) == Some(Slot(pool[0], PtSlot(paddr)))
  {
    SplitShaped(t, root, l, k, i, Frame(paddr), pool[0]);
    ShapedFind(SplitTables(t, l.pds[k], i, pool[0]), root, l.(pts := l.pts[Frame(paddr) := pool[0]]), paddr);
  }

  /** ReplaceSpec when the split takes the pool's first page for PD entry i of GByte k: ReplaceLeafSpec on the split tables with one page taken. */
  lemma ReplaceSpecNewSplit(t: Tables, pool: seq<nat>, root: nat, l: Layout, paddr: nat) returns (k: nat, i: nat)
    requires Shaped(t, root, l) && paddr < Extent(l)
    requires Frame(paddr) !in l.pts && |pool| > 0
    ensures k < |l.pds| && i < N_ENTRIES && Frame(paddr) == 512 * k + i
    ensures l.pds[k] in t && i < |t[l.pds[k]]|
    ensures var l1 := l.(pts := l.pts[Frame(paddr) := pool[0]]);
      var q := ReplaceLeafSpec(SplitTables(t, l.pds[k], i, pool[0]), pool, 1, root, l1, paddr);
      ReplaceSpec(t, pool, root, l, paddr) == ReplaceResult(q.page, q.tables, 1 + q.used, l1)
  {
    var a := paddr - paddr % PAGESIZE2M;
    SplitAddrFacts(l, paddr);
    k, i := SplitIndices(t, root, l, a);
    SplitSpecNew(t, pool, root, l, a, k, i);
    ReplaceAfterSplit(t, pool, root, l, paddr, SplitResult(1, SplitTables(t, l.pds[k], i, pool[0]), 1, l.(pts := l.pts[Frame(paddr) := pool[0]])));
  }

  /** ReplaceSpec in terms of the split's result `s`: NULL when the split fails, else ReplaceLeafSpec on what it left. */
  lemma ReplaceAfterSplit(t: Tables, pool: seq<nat>, root: nat, l: Layout, paddr: nat, s: SplitResult)
    requires SplitSpec(t, pool, root, l, paddr - paddr % PAGESIZE2M) == s
    ensures s.code == 0 ==> ReplaceSpec(t, pool, root, l, paddr) == ReplaceResult(None, s.tables, s.used, s.layout)
    ensures s.code != 0 ==> var q := ReplaceLeafSpec(s.tables, pool, s.used, root, s.layout, paddr);
      ReplaceSpec(t, pool, root, l, paddr) == ReplaceResult(q.page, q.tables, s.used + q.used, s.layout)
  {
  }

  /** ReplaceLeafReturns on the tables split_2M_mapping leaves when it splits PD entry i of GByte k. */
  lemma NewSplitLeafReturns(t: Tables, pool: seq<nat>, root: nat, l: Layout, k: nat, i: nat, paddr: nat)
    requires k < |l.pds| && i < N_ENTRIES && Frame(paddr) == 512 * k + i
    requires l.pds[k] in t && i < |t[l.pds[k]]| && t[l.pds[k]][i] < ADDR_LIMIT
    requires Walk(t, root, paddr) == Some(LeafTranslation(t[l.pds[k]][i], PAGESIZE2M, paddr))
    requires |pool| > 0 && pool[0] !in t
    requires FindPtEntry(SplitTables(t, l.pds[k], i, pool[0]), root, paddr) == Some(Slot(pool[0], PtSlot(paddr)))
    ensures var r := ReplaceLeafSpec(SplitTables(t, l.pds[k], i, pool[0]), pool, 1, root, l.(pts := l.pts[Frame(paddr) := pool[0]]), paddr);
      && (r.page.Some? <==> |pool| > 1 && paddr % PAGE_SIZE == 0 && Walk(t, root, paddr).value.hpa == paddr)
      && (|pool| > 1 ==> r.used == 1)
      && (r.page.Some? ==> r.page.value == pool[1])
  {
    var e := t[l.pds[k]][i];
    SplitBaseFacts(e);
    InFrame(paddr);
    var x := SplitBase(e) + PtSlot(paddr) * PAGE_SIZE;
    SubPage(SplitBase(e), PtSlot(paddr));
    SplitEntry(t, l.pds[k], i, pool[0], pool[0], PtSlot(paddr));
    DecodePtLeaf(x);
    AddrFieldIsPageBase(PtLeaf(x));
    AlignedPlusOffset(x, paddr % PAGE_SIZE);
    var t1 := SplitTables(t, l.pds[k], i, pool[0]);
    assert pool[0] in t1 && |t1[pool[0]]| == N_ENTRIES;
    assert PageBase(Entry(t1, pool[0], PtSlot(paddr))) == x;
    assert Walk(t, root, paddr).value.hpa == x + paddr % PAGE_SIZE;
  }

  /** replace_ept_page keeps the tables shaped, under the layout after its split. */
  lemma ReplaceSpecShaped(t: Tables, pool: seq<nat>, root: nat, l: Layout, paddr: nat)
    requires Shaped(t, root, l) && paddr < Extent(l) && Fresh(t, pool)
    ensures Shaped(ReplaceSpec(t, pool, root, l, paddr).tables, root, ReplaceSpec(t, pool, root, l, paddr).layout)
  {
    if Frame(paddr) in l.pts {
      ShapedInSplitFrame(t, pool, root, l, paddr);
    } else if |pool| == 0 {
      ReplaceSplitFails(t, pool, root, l, paddr);
    } else {
      ShapedAfterNewSplit(t, pool, root, l, paddr);
    }
  }

  /** ReplaceSpecShaped when the frame of `paddr` is already split. */
  lemma ShapedInSplitFrame(t: Tables, pool: seq<nat>, root: nat, l: Layout, paddr: nat)
    requires Shaped(t, root, l) && paddr < Extent(l) && Fresh(t, pool)
    requires Frame(paddr) in l.pts
    ensures Shaped(ReplaceSpec(t, pool, root, l, paddr).tables, root, ReplaceSpec(t, pool, root, l, paddr).layout)
  {
    var a := paddr - paddr % PAGESIZE2M;
    SplitAddrFacts(l, paddr);
    SplitCodes(t, pool, root, l, a);
    ReplaceSpecParts(t, pool, root, l, paddr);
    assert SplitSpec(t, pool, root, l, a) == SplitResult(1, t, 0, l);
    ReplaceLeafShaped(t, pool, 0, root, l, paddr);
  }

  /** ReplaceSpecShaped when the split takes the pool's first page. */
  lemma ShapedAfterNewSplit(t: Tables, pool: seq<nat>, root: nat, l: Layout, paddr: nat)
    requires Shaped(t, root, l) && paddr < Extent(l) && Fresh(t, pool)
    requires Frame(paddr) !in l.pts && |pool| > 0
    ensures Shaped(ReplaceSpec(t, pool, root, l, paddr).tables, root, ReplaceSpec(t, pool, root, l, paddr).layout)
  {
    var k, i := ReplaceSpecNewSplit(t, pool, root, l, paddr);
    SplitShaped(t, root, l, k, i, Frame(paddr), pool[0]);
    var l1 := l.(pts := l.pts[Frame(paddr) := pool[0]]);
    ReplaceLeafShaped(SplitTables(t, l.pds[k], i, pool[0]), pool, 1, root, l1, paddr);
  }

  /**
   * What replace_ept_page does to the translation, in four lemmas. On
   * success the 4-KByte page of `paddr` is mapped, write-back, to the new
   * page (ReplaceRedirects) and nothing else moves: other addresses go where
   * they went, with the same permissions (ReplaceKeepsTargets), and exactly
   * as before outside the frame of `paddr` or when that frame was already
   * split (ReplaceKeepsWalks). On NULL nothing moves (ReplaceNullKeeps).
   */
  lemma ReplaceRedirects(t: Tables, pool: seq<nat>, root: nat, l: Layout, paddr: nat)
    requires Shaped(t, root, l) && paddr < Extent(l) && Fresh(t, pool)
    ensures var r := ReplaceSpec(t, pool, root, l, paddr);
      r.page.Some? ==> forall gpa: nat :: gpa / PAGE_SIZE == paddr / PAGE_SIZE ==>
        Walk(r.tables, root, gpa) == Some(Translation(r.page.value + gpa % PAGE_SIZE, ReplacedLeaf(r.page.value)))
  {
    var r := ReplaceSpec(t, pool, root, l, paddr);
    if r.page.Some? {
      forall gpa: nat | gpa / PAGE_SIZE == paddr / PAGE_SIZE
        ensures Walk(r.tables, root, gpa) == Some(Translation(r.page.value + gpa % PAGE_SIZE, ReplacedLeaf(r.page.value)))
      {
        ReplaceRedirectAt(t, pool, root, l, paddr, gpa);
      }
    }
  }

  lemma ReplaceKeepsTargets(t: Tables, pool: seq<nat>, root: nat, l: Layout, paddr: nat)
    requires Shaped(t, root, l) && paddr < Extent(l) && Fresh(t, pool)
    ensures var r := ReplaceSpec(t, pool, root, l, paddr);
      forall gpa: nat :: gpa / PAGE_SIZE != paddr / PAGE_SIZE ==> SameTarget(Walk(r.tables, root, gpa), Walk(t, root, gpa))
  {
    var r := ReplaceSpec(t, pool, root, l, paddr);
    forall gpa: nat | gpa / PAGE_SIZE != paddr / PAGE_SIZE
      ensures SameTarget(Walk(r.tables, root, gpa), Walk(t, root, gpa))
    {
      ReplaceKeepsAt(t, pool, root, l, paddr, gpa);
    }
  }

  lemma ReplaceKeepsWalks(t: Tables, pool: seq<nat>, root: nat, l: Layout, paddr: nat)
    requires Shaped(t, root, l) && paddr < Extent(l) && Fresh(t, pool)
    ensures var r := ReplaceSpec(t, pool, root, l, paddr);
      forall gpa: nat :: gpa / PAGE_SIZE != paddr / PAGE_SIZE && (Frame(gpa) != Frame(paddr) || Frame(paddr) in l.pts) ==>
        Walk(r.tables, root, gpa) == Walk(t, root, gpa)
  {
    var r := ReplaceSpec(t, pool, root, l, paddr);
    forall gpa: nat | gpa / PAGE_SIZE != paddr / PAGE_SIZE && (Frame(gpa) != Frame(paddr) || Frame(paddr) in l.pts)
      ensures Walk(r.tables, root, gpa) == Walk(t, root, gpa)
    {
      ReplaceKeepsAt(t, pool, root, l, paddr, gpa);
    }
  }

  lemma ReplaceNullKeeps(t: Tables, pool: seq<nat>, root: nat, l: Layout, paddr: nat)
    requires Shaped(t, root, l) && paddr < Extent(l) && Fresh(t, pool)
    ensures var r := ReplaceSpec(t, pool, root, l, paddr);
      r.page.None? ==> forall gpa: nat :: SameTarget(Walk(r.tables, root, gpa), Walk(t, root, gpa))
  {
    var r := ReplaceSpec(t, pool, root, l, paddr);
    if r.page.None? {
      forall gpa: nat
        ensures SameTarget(Walk(r.tables, root, gpa), Walk(t, root, gpa))
      {
        ReplaceKeepsAt(t, pool, root, l, paddr, gpa);
      }
    }
  }

  /** The redirect of replace_ept_page for one address. */
  lemma ReplaceRedirectAt(t: Tables, pool: seq<nat>, root: nat, l: Layout, paddr: nat, gpa: nat)
    requires Shaped(t, root, l) && paddr < Extent(l) && Fresh(t, pool)
    ensures var r := ReplaceSpec(t, pool, root, l, paddr);
      r.page.Some? && gpa / PAGE_SIZE == paddr / PAGE_SIZE ==>
        Walk(r.tables, root, gpa) == Some(Translation(r.page.value + gpa % PAGE_SIZE, ReplacedLeaf(r.page.value)))
  {
    if Frame(paddr) !in l.pts && |pool| == 0 {
      ReplaceSplitFails(t, pool, root, l, paddr);
    } else {
      var t1, used1, l1 := SplitStage(t, pool, root, l, paddr, gpa);
      ReplaceLeafRedirectAt(t1, pool, used1, root, l1, paddr, gpa);
      RedirectThroughSplit(t, pool, root, l, paddr, gpa, t1, used1, l1);
    }
  }

  /** The redirect of ReplaceLeafSpec on the tables the split stage leaves is the redirect of ReplaceSpec. */
  lemma RedirectThroughSplit(t: Tables, pool: seq<nat>, root: nat, l: Layout, paddr: nat, gpa: nat, t1: Tables, used1: nat, l1: Layout)
    requires var q := ReplaceLeafSpec(t1, pool, used1, root, l1, paddr);
      && ReplaceSpec(t, pool, root, l, paddr) == ReplaceResult(q.page, q.tables, used1 + q.used, l1)
      && (q.page.Some? && gpa / PAGE_SIZE == paddr / PAGE_SIZE ==>
            Walk(q.tables, root, gpa) == Some(Translation(q.page.value + gpa % PAGE_SIZE, ReplacedLeaf(q.page.value))))
    ensures var r := ReplaceSpec(t, pool, root, l, paddr);
      r.page.Some? && gpa / PAGE_SIZE == paddr / PAGE_SIZE ==>
        Walk(r.tables, root, gpa) == Some(Translation(r.page.value + gpa % PAGE_SIZE, ReplacedLeaf(r.page.value)))
  {
  }

  /** What replace_ept_page keeps of the translation at one address. */
  lemma ReplaceKeepsAt(t: Tables, pool: seq<nat>, root: nat, l: Layout, paddr: nat, gpa: nat)
    requires Shaped(t, root, l) && paddr < Extent(l) && Fresh(t, pool)
    ensures var r := ReplaceSpec(t, pool, root, l, paddr);
      && (gpa / PAGE_SIZE != paddr / PAGE_SIZE ==> SameTarget(Walk(r.tables, root, gpa), Walk(t, root, gpa)))
      && (gpa / PAGE_SIZE != paddr / PAGE_SIZE && (Frame(gpa) != Frame(paddr) || Frame(paddr) in l.pts) ==>
            Walk(r.tables, root, gpa) == Walk(t, root, gpa))
      && (r.page.None? ==> SameTarget(Walk(r.tables, root, gpa), Walk(t, root, gpa)))
  {
    if Frame(paddr) !in l.pts && |pool| == 0 {
      ReplaceSplitFails(t, pool, root, l, paddr);
    } else {
      var t1, used1, l1 := SplitStage(t, pool, root, l, paddr, gpa);
      ReplaceLeafKeepsAt(t, t1, pool, used1, root, l1, Frame(paddr) in l.pts, paddr, gpa);
      KeepsThroughSplit(t, pool, root, l, paddr, gpa, t1, used1, l1);
    }
  }

  /** What ReplaceLeafSpec on the tables the split stage leaves keeps is what ReplaceSpec keeps. */
  lemma KeepsThroughSplit(t: Tables, pool: seq<nat>, root: nat, l: Layout, paddr: nat, gpa: nat, t1: Tables, used1: nat, l1: Layout)
    requires var q := ReplaceLeafSpec(t1, pool, used1, root, l1, paddr);
      && ReplaceSpec(t, pool, root, l, paddr) == ReplaceResult(q.page, q.tables, used1 + q.used, l1)
      && (gpa / PAGE_SIZE != paddr / PAGE_SIZE ==> SameTarget(Walk(q.tables, root, gpa), Walk(t, root, gpa)))
      && (gpa / PAGE_SIZE != paddr / PAGE_SIZE && (Frame(gpa) != Frame(paddr) || Frame(paddr) in l.pts) ==>
            Walk(q.tables, root, gpa) == Walk(t, root, gpa))
      && (q.page.None? ==> SameTarget(Walk(q.tables, root, gpa), Walk(t, root, gpa)))
    ensures var r := ReplaceSpec(t, pool, root, l, paddr);
      && (gpa / PAGE_SIZE != paddr / PAGE_SIZE ==> SameTarget(Walk(r.tables, root, gpa), Walk(t, root, gpa)))
      && (gpa / PAGE_SIZE != paddr / PAGE_SIZE && (Frame(gpa) != Frame(paddr) || Frame(paddr) in l.pts) ==>
            Walk(r.tables, root, gpa) == Walk(t, root, gpa))
      && (r.page.None? ==> SameTarget(Walk(r.tables, root, gpa), Walk(t, root, gpa)))
  {
  }

  /**
   * The split stage of replace_ept_page when it succeeds: the tables `t1`
   * it leaves, under layout `l1`, after taking `used1` pages, are shaped
   * with the frame of `paddr` split; ReplaceSpec goes on with
   * ReplaceLeafSpec on them; and at `gpa` they keep the target, and the
   * whole walk unless the split was new and `gpa` lies in its frame.
   */
  lemma SplitStage(t: Tables, pool: seq<nat>, root: nat, l: Layout, paddr: nat, gpa: nat) returns (t1: Tables, used1: nat, l1: Layout)
    requires Shaped(t, root, l) && paddr < Extent(l) && Fresh(t, pool)
    requires Frame(paddr) in l.pts || |pool| > 0
    ensures Shaped(t1, root, l1) && paddr < Extent(l1) && Frame(paddr) in l1.pts
    ensures used1 <= |pool| && (used1 < |pool| ==> PageAddr(pool[used1]))
    ensures var q := ReplaceLeafSpec(t1, pool, used1, root, l1, paddr);
      ReplaceSpec(t, pool, root, l, paddr) == ReplaceResult(q.page, q.tables, used1 + q.used, l1)
    ensures SameTarget(Walk(t1, root, gpa), Walk(t, root, gpa))
    ensures Frame(gpa) != Frame(paddr) || Frame(paddr) in l.pts ==> Walk(t1, root, gpa) == Walk(t, root, gpa)
  {
    if Frame(paddr) in l.pts {
      var a := paddr - paddr % PAGESIZE2M;
      SplitAddrFacts(l, paddr);
      SplitOnShape(t, pool, root, l, a);
      ReplaceAfterSplit(t, pool, root, l, paddr, SplitResult(1, t, 0, l));
      t1, used1, l1 := t, 0, l;
    } else {
      t1, l1 := NewSplitAt(t, pool, root, l, paddr, gpa);
      used1 := 1;
    }
  }

  /**
   * The split replace_ept_page makes when the frame of `paddr` is still a
   * 2-MByte leaf: the tables `t1` it leaves under layout `l1` are shaped,
   * move no address outside the frame, keep every target, and ReplaceSpec
   * goes on with ReplaceLeafSpec on them.
   */
  lemma NewSplitAt(t: Tables, pool: seq<nat>, root: nat, l: Layout, paddr: nat, gpa: nat) returns (t1: Tables, l1: Layout)
    requires Shaped(t, root, l) && paddr < Extent(l) && Fresh(t, pool)
    requires Frame(paddr) !in l.pts && |pool| > 0
    ensures l1 == l.(pts := l.pts[Frame(paddr) := pool[0]]) && Extent(l1) == Extent(l)
    ensures Shaped(t1, root, l1)
    ensures var q := ReplaceLeafSpec(t1, pool, 1, root, l1, paddr);
      ReplaceSpec(t, pool, root, l, paddr) == ReplaceResult(q.page, q.tables, 1 + q.used, l1)
    ensures SameTarget(Walk(t1, root, gpa), Walk(t, root, gpa))
    ensures Frame(gpa) != Frame(paddr) ==> Walk(t1, root, gpa) == Walk(t, root, gpa)
  {
    var k, i := ReplaceSpecNewSplit(t, pool, root, l, paddr);
    SplitShaped(t, root, l, k, i, Frame(paddr), pool[0]);
    SplitWalk(t, root, l, k, i, Frame(paddr), pool[0], gpa);
    t1, l1 := SplitTables(t, l.pds[k], i, pool[0]), l.(pts := l.pts[Frame(paddr) := pool[0]]);
  }

  lemma SplitAddrFacts(l: Layout, paddr: nat)
    requires paddr < Extent(l)
    ensures (paddr - paddr % PAGESIZE2M) % PAGESIZE2M == 0
    ensures paddr - paddr % PAGESIZE2M < Extent(l)
    ensures Frame(paddr - paddr % PAGESIZE2M) == Frame(paddr)
  {
    assert paddr == PAGESIZE2M * Frame(paddr) + paddr % PAGESIZE2M;
    assert paddr - paddr % PAGESIZE2M == PAGESIZE2M * Frame(paddr);
  }

  /**
   * After the split, the entry find_pt_entry returns is the leaf the walk
   * of `paddr` reads, so `entry & ~(PAGESIZE - 1)` equals `paddr` exactly
   * when `paddr` is page aligned and was mapped to itself.
   */
  lemma OrigMatches(t0: Tables, t1: Tables, root: nat, l1: Layout, paddr: nat, e: nat)
    requires Shaped(t1, root, l1) && paddr < Extent(l1) && Frame(paddr) in l1.pts
    requires SameTarget(Walk(t1, root, paddr), Walk(t0, root, paddr))
    requires e == Entry(t1, l1.pts[Frame(paddr)], PtSlot(paddr))
    ensures Walk(t0, root, paddr).Some?
    ensures e - e % PAGE_SIZE == paddr <==> paddr % PAGE_SIZE == 0 && Walk(t0, root, paddr).value.hpa == paddr
  {
    ShapedWalk(t1, root, l1, paddr);
    ExtentPages(l1, paddr);
    assert TablePage(t1, l1.pts[Frame(paddr)]);
    assert LeafEntry(e);
    AddrFieldIsPageBase(e);
    var h := Walk(t1, root, paddr).value.hpa;
    assert h == PageBase(e) + paddr % PAGE_SIZE;
    AlignedPlusOffset(PageBase(e), paddr % PAGE_SIZE);
  }

  /** OrigMatches stated for the tables after the split. */
  lemma OrigMatchesAfterSplit(t0: Tables, t1: Tables, root: nat, l1: Layout, paddr: nat)
    requires Shaped(t1, root, l1) && paddr < Extent(l1) && Frame(paddr) in l1.pts
    requires SameTarget(Walk(t1, root, paddr), Walk(t0, root, paddr))
    ensures Walk(t0, root, paddr).Some?
    ensures PageBase(Entry(t1, l1.pts[Frame(paddr)], PtSlot(paddr))) == paddr <==>
      paddr % PAGE_SIZE == 0 && Walk(t0, root, paddr).value.hpa == paddr
  {
    OrigMatches(t0, t1, root, l1, paddr, Entry(t1, l1.pts[Frame(paddr)], PtSlot(paddr)));
  }

}
