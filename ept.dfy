/**
 * The EPT table manager as it works on memory: an arena of physical pages,
 * some holding EPT tables (512 entries each) and some holding data, and a
 * page allocator that either hands out a fresh page or fails.
 *
 * Each operation writes the tables entry by entry, as the C code does, and
 * its contract ties the new arena to the pure functions of EptBuild and
 * EptEdit, whose effect on the translation is proved there.
 */
module Ept {
  import opened Words
  import opened EptEntry
  import opened EptWalk
  import opened EptBuild
  import opened EptEdit
  import opened EptOps
  import opened EptClone
  import E820

  type Bytes = seq<bv8>

  /** A data page after memset(0). */
  function ZeroBytes(): (r: Bytes)
    ensures |r| == PAGE_SIZE && forall i :: 0 <= i < |r| ==> r[i] == 0
  {
    seq(PAGE_SIZE, _ => 0)
  }

  /** The contents of page `p` in `ram`. */
  function Contents(ram: map<nat, Bytes>, p: nat): Bytes {
    if p in ram then ram[p] else ZeroBytes()
  }

  /** Tables only gained pages: every page there before is there with the same contents. */
  predicate Extends(t0: Tables, t: Tables) {
    forall p :: p in t0 ==> p in t && t[p] == t0[p]
  }

  /** The arena after entry i of the table page at p is set to v. */
  function Stored(t: Tables, p: nat, i: nat, v: nat): (r: Tables)
    requires p in t && i < |t[p]|
    ensures p in r && r[p] == t[p][i := v]
    ensures forall q :: q in r <==> q in t
    ensures forall q :: q in t && q != p ==> r[q] == t[q]
  {
    var row: seq<nat> := t[p][i := v];
    t[p := row]
  }

  class PhysMem {
    /** The pages that hold EPT tables, by physical address. */
    var tables: Tables
    /** The contents of data pages, by physical address; a page not listed holds zeros. */
    var ram: map<nat, Bytes>
    /** The pages alloc_page can still hand out, in the order it hands them out. */
    var free: seq<nat>

    /** Free pages are page addresses, not 0, not tables, and listed once. */
    ghost predicate Valid()
      reads this
    {
      && (forall i :: 0 <= i < |free| ==> PageAddr(free[i]) && free[i] != 0 && free[i] !in tables)
      && (forall i, j :: 0 <= i < j < |free| ==> free[i] != free[j])
    }

    constructor (pool: seq<nat>, contents: map<nat, Bytes>)
      requires forall i :: 0 <= i < |pool| ==> PageAddr(pool[i]) && pool[i] != 0
      requires forall i, j :: 0 <= i < j < |pool| ==> pool[i] != pool[j]
      ensures Valid()
      ensures tables == map[] && ram == contents && free == pool
    {
      tables := map[];
      ram := contents;
      free := pool;
    }

    /** vt_alloc_page: the next free page, or failure when none is left. */
    method AllocPage() returns (ok: bool, p: nat)
      requires Valid()
      modifies this
      ensures Valid() && tables == old(tables) && ram == old(ram)
      ensures ok <==> |old(free)| > 0
      ensures ok ==> p == old(free)[0] && free == old(free)[1..] && PageAddr(p) && p != 0 && p !in tables
      ensures !ok ==> free == old(free)
    {
      if |free| == 0 {
        return false, 0;
      }
      p := free[0];
      free := free[1..];
      ok := true;
    }

    /** vt_alloc_page followed by memset(0) of a page that is to hold a table. */
    method AllocTable() returns (ok: bool, p: nat)
      requires Valid()
      modifies this
      ensures Valid() && ram == old(ram)
      ensures ok <==> |old(free)| > 0
      ensures ok ==> p == old(free)[0] && free == old(free)[1..] && PageAddr(p) && p != 0
      ensures ok ==> p !in old(tables) && tables == old(tables)[p := ZeroPage()]
      ensures !ok ==> free == old(free) && tables == old(tables)
    {
      ok, p := AllocPage();
      if ok {
        tables := tables[p := ZeroPage()];
      }
    }

    /** vt_alloc_page followed by memset(0) of a page that is to hold data. */
    method AllocData() returns (ok: bool, p: nat)
      requires Valid()
      modifies this
      ensures Valid() && tables == old(tables)
      ensures ok <==> |old(free)| > 0
      ensures ok ==> p == old(free)[0] && free == old(free)[1..] && PageAddr(p) && p != 0 && p !in tables
      ensures ok ==> ram == old(ram)[p := ZeroBytes()]
      ensures !ok ==> free == old(free) && ram == old(ram)
    {
      ok, p := AllocPage();
      if ok {
        ram := ram[p := ZeroBytes()];
      }
    }

    /** One store `q[i] = v` into the table page at `p`. */
    method SetEntry(p: nat, i: nat, v: nat)
      requires Valid() && p in tables && i < |tables[p]|
      modifies this
      ensures Valid() && free == old(free) && ram == old(ram)
      ensures tables == Stored(old(tables), p, i, v)
    {
      tables := Stored(tables, p, i, v);
    }

    /** The loop of vt_ept_2M_init that fills the PT: entry i maps i << 12. */
    method FillPt(pt: nat)
      requires Valid() && pt in tables && tables[pt] == ZeroPage()
      modifies this
      ensures Valid() && free == old(free) && ram == old(ram)
      ensures tables == old(tables)[pt := PtPage()]
    {
      var i := 0;
      while i < N_ENTRIES
        invariant i <= N_ENTRIES
        invariant Valid() && free == old(free) && ram == old(ram)
        invariant pt in tables && |tables[pt]| == N_ENTRIES
        invariant tables == old(tables)[pt := tables[pt]]
        invariant forall x :: 0 <= x < i ==> tables[pt][x] == PtPage()[x]
      {
        var addr := i * PAGE_SIZE;
        var v;
        if NoCacheRegion(addr) != 0 {
          v := WithFlags(addr, EPT_R + EPT_W + EPT_X);
        } else {
          v := WithFlags(addr, EPT_R + EPT_W + EPT_X + EPT_CACHE_2 + EPT_CACHE_3);
        }
        assert v == PtLeaf(addr);
        SetEntry(pt, i, v);
        i := i + 1;
      }
      assert tables[pt] == PtPage();
    }

    /**
     * The inner loop of vt_ept_2M_init that fills PD page k: entry i maps
     * the 2-MByte frame i + 512 * k. The frame address is computed without
     * the 32-bit truncation of the source (see PdTargetAsWritten).
     */
    method FillPd(pd: nat, k: nat)
      requires Valid() && pd in tables && tables[pd] == ZeroPage()
      modifies this
      ensures Valid() && free == old(free) && ram == old(ram)
      ensures tables == old(tables)[pd := PdPage(k)]
    {
      var i := 0;
      while i < N_ENTRIES
        invariant i <= N_ENTRIES
        invariant Valid() && free == old(free) && ram == old(ram)
        invariant pd in tables && |tables[pd]| == N_ENTRIES
        invariant tables == old(tables)[pd := tables[pd]]
        invariant forall x :: 0 <= x < i ==> tables[pd][x] == PdPage(k)[x]
      {
        var addr := (i + k * N_ENTRIES) * PAGESIZE2M;
        var v;
        if NoCacheRegion(addr) != 0 {
          v := WithFlags(addr, EPT_R + EPT_W + EPT_X + EPT_2M_PAGE);
        } else {
          v := WithFlags(addr, EPT_R + EPT_W + EPT_X + EPT_2M_PAGE + EPT_CACHE_2 + EPT_CACHE_3);
        }
        assert v == PdLeaf(PdTarget(k, i));
        SetEntry(pd, i, v);
        i := i + 1;
      }
      assert tables[pd] == PdPage(k);
    }

    /** The loop of vt_ept_2M_init that links the PDPT to the PD pages. */
    method FillPdpt(pdpt: nat, pds: seq<nat>)
      requires Valid() && pdpt in tables && tables[pdpt] == ZeroPage()
      requires |pds| <= N_ENTRIES
      modifies this
      ensures Valid() && free == old(free) && ram == old(ram)
      ensures tables == old(tables)[pdpt := PdptPage(pds)]
    {
      var i := 0;
      while i < |pds|
        invariant i <= |pds|
        invariant Valid() && free == old(free) && ram == old(ram)
        invariant pdpt in tables && |tables[pdpt]| == N_ENTRIES
        invariant tables == old(tables)[pdpt := tables[pdpt]]
        invariant forall x :: 0 <= x < i ==> tables[pdpt][x] == TableEntry(pds[x])
        invariant forall x :: i <= x < N_ENTRIES ==> tables[pdpt][x] == 0
      {
        SetEntry(pdpt, i, pds[i] + EPT_R + EPT_W + EPT_X);
        i := i + 1;
      }
      assert tables[pdpt] == PdptPage(pds);
    }

    /** The loop of vt_ept_2M_init that allocates and clears the n PD pages. */
    method AllocPds(n: nat) returns (ok: bool, pds: seq<nat>)
      requires Valid()
      modifies this
      ensures Valid() && ram == old(ram) && Extends(old(tables), tables)
      ensures ok <==> n <= |old(free)|
      ensures ok ==> pds == old(free)[..n] && free == old(free)[n..]
      ensures ok ==> forall k :: 0 <= k < n ==> pds[k] in tables && tables[pds[k]] == ZeroPage()
      ensures !ok ==> free == [] && forall i :: 0 <= i < |old(free)| ==> old(free)[i] in tables
    {
      pds := [];
      var k := 0;
      while k < n
        invariant k <= n && k <= |old(free)|
        invariant pds == old(free)[..k] && free == old(free)[k..]
        invariant Valid() && ram == old(ram) && Extends(old(tables), tables)
        invariant forall x :: 0 <= x < k ==> pds[x] in tables && tables[pds[x]] == ZeroPage()
      {
        var got, p := AllocTable();
        if !got {
          assert old(free) == pds;
          return false, pds;
        }
        pds := pds + [p];
        k := k + 1;
      }
      ok := true;
    }

    /** The loop of vt_ept_2M_init that fills the n PD pages; the pages in `keep` are not touched. */
    method FillPds(pds: seq<nat>, ghost keep: Tables)
      requires Valid() && Extends(keep, tables)
      requires forall k :: 0 <= k < |pds| ==> pds[k] in tables && tables[pds[k]] == ZeroPage() && pds[k] !in keep
      requires forall k1, k2 :: 0 <= k1 < k2 < |pds| ==> pds[k1] != pds[k2]
      modifies this
      ensures Valid() && free == old(free) && ram == old(ram) && Extends(keep, tables)
      ensures forall k :: 0 <= k < |pds| ==> pds[k] in tables && tables[pds[k]] == PdPage(k)
    {
      var k := 0;
      while k < |pds|
        invariant k <= |pds|
        invariant Valid() && free == old(free) && ram == old(ram) && Extends(keep, tables)
        invariant forall x :: 0 <= x < k ==> pds[x] in tables && tables[pds[x]] == PdPage(x)
        invariant forall x :: k <= x < |pds| ==> pds[x] in tables && tables[pds[x]] == ZeroPage()
      {
        FillPd(pds[k], k);
        k := k + 1;
      }
    }

    /**
     * The lower half of vt_ept_2M_init: the PT for the first 2 MBytes, the
     * nPd PD pages, and PD page 0's entry 0 pointed at the PT.
     */
    method BuildLower(nPd: nat) returns (ok: bool, pt: nat, pds: seq<nat>)
      requires Valid() && 1 <= nPd
      modifies this
      ensures Valid() && ram == old(ram) && Extends(old(tables), tables)
      ensures ok <==> nPd + 1 <= |old(free)|
      ensures ok ==> pt == old(free)[0] && pds == old(free)[1..nPd + 1] && free == old(free)[nPd + 1..]
      ensures ok ==> pt in tables && tables[pt] == PtPage()
      ensures ok ==> pds[0] in tables && tables[pds[0]] == FirstPdPage(pt)
      ensures ok ==> forall k :: 1 <= k < nPd ==> pds[k] in tables && tables[pds[k]] == PdPage(k)
      ensures !ok ==> free == [] && forall i :: 0 <= i < |old(free)| ==> old(free)[i] in tables
    {
      ghost var F := free;
      pds := [];
      ok, pt := AllocTable();
      if !ok {
        return;
      }
      FillPt(pt);
      ghost var T1, F1 := tables, free;
      ok, pds := AllocPds(nPd);
      if !ok {
        assert F == [pt] + F1;
        return;
      }
      assert pds == F[1..nPd + 1] by { assert F1 == F[1..]; }
      FreshPrefix(T1, F1, nPd);
      FillPds(pds, T1);
      SetEntry(pds[0], 0, pt + EPT_R + EPT_W + EPT_X);
      assert tables[pds[0]] == FirstPdPage(pt);
      forall k | 1 <= k < nPd ensures pds[k] in tables && tables[pds[k]] == PdPage(k) {
        assert pds[k] != pds[0];
      }
    }

    /** The upper half of vt_ept_2M_init: the PDPT linked to the PD pages, and the PML4 linked to the PDPT. */
    method BuildUpper(pds: seq<nat>) returns (ok: bool, pdpt: nat, root: nat)
      requires Valid() && |pds| <= N_ENTRIES
      modifies this
      ensures Valid() && ram == old(ram) && Extends(old(tables), tables)
      ensures ok <==> 2 <= |old(free)|
      ensures ok ==> pdpt == old(free)[0] && root == old(free)[1] && free == old(free)[2..]
      ensures ok ==> pdpt in tables && tables[pdpt] == PdptPage(pds)
      ensures ok ==> root in tables && tables[root] == Pml4Page(pdpt)
      ensures !ok ==> free == [] && forall i :: 0 <= i < |old(free)| ==> old(free)[i] in tables
    {
      root := 0;
      ok, pdpt := AllocTable();
      if !ok {
        return;
      }
      FillPdpt(pdpt, pds);
      ok, root := AllocTable();
      if !ok {
        return;
      }
      SetEntry(root, 0, pdpt + EPT_R + EPT_W + EPT_X);
      assert tables[root] == Pml4Page(pdpt);
    }

    /**
     * vt_ept_2M_init: measure memory with e820_end_paddr(MAXMEM), round up
     * to whole GBytes, give up above 512 GBytes, then allocate and fill the
     * PT, the PD pages, the PDPT and the PML4, returning the PML4's address
     * (0 on failure). Pages allocated before a failure are not given back.
     */
    method InitEpt2M(m: seq<E820.E820Entry>) returns (root: nat, ghost pt: nat, ghost pdpt: nat, ghost pds: seq<nat>)
      requires Valid() && E820.WellFormed(m)
      requires E820.EndPaddr(m, E820.MAXMEM) > 0
      modifies this
      ensures Valid() && ram == old(ram) && Extends(old(tables), tables)
      ensures var n := PdCount(E820.EndPaddr(m, E820.MAXMEM));
        n > PML4E_MAP_LIMIT ==> root == 0 && tables == old(tables) && free == old(free)
      ensures var n := PdCount(E820.EndPaddr(m, E820.MAXMEM));
        root != 0 <==> n <= PML4E_MAP_LIMIT && n + 3 <= |old(free)|
      ensures var n := PdCount(E820.EndPaddr(m, E820.MAXMEM));
        root != 0 ==>
          && pt == old(free)[0] && pds == old(free)[1..n + 1]
          && pdpt == old(free)[n + 1] && root == old(free)[n + 2]
          && free == old(free)[n + 3..]
          && Built(tables, root, pt, pdpt, pds)
          && Shaped(tables, root, BuiltLayout(pt, pdpt, pds))
          && (forall gpa: nat :: gpa < n * GIGABYTE ==> Walk(tables, root, gpa) == Some(Translation(gpa, IdentityLeaf(gpa))))
          && (forall gpa: nat :: gpa >= n * GIGABYTE ==> Walk(tables, root, gpa) == None)
      ensures var n := PdCount(E820.EndPaddr(m, E820.MAXMEM));
        n <= PML4E_MAP_LIMIT && root == 0 ==>
          free == [] && forall i :: 0 <= i < |old(free)| ==> old(free)[i] in tables
    {
      ghost var F := free;
      pt, pdpt, pds := 0, 0, [];
      var mappingSize := E820.E820EndPaddr(m, E820.MAXMEM);
      var rounded := RoundUpGb(mappingSize);
      if rounded / GIGABYTE > PML4E_MAP_LIMIT {
        return 0, pt, pdpt, pds;
      }
      var nPd := rounded / GIGABYTE;

      var ok, ptPage, pdPages := BuildLower(nPd);
      if !ok {
        return 0, pt, pdpt, pds;
      }
      ghost var T2, F2 := tables, free;
      var pdptPage, pml4;
      ok, pdptPage, pml4 := BuildUpper(pdPages);
      if !ok {
        TakenStayTaken(F, F2, T2, tables, nPd + 1);
        return 0, pt, pdpt, pds;
      }
      pt, pdpt, pds, root := ptPage, pdptPage, pdPages, pml4;
      BuiltFromParts(F, tables, T2, nPd, root, pt, pdpt, pds);
      BuiltIsShaped(tables, root, pt, pdpt, pds);
      BuiltIsIdentity(tables, root, pt, pdpt, pds);
    }

    /** The fill loop of split_2M_mapping: entry i maps base + i * 4096, cache bits per page. */
    method FillSplit(pt: nat, base: nat)
      requires Valid() && pt in tables && tables[pt] == ZeroPage()
      modifies this
      ensures Valid() && free == old(free) && ram == old(ram)
      ensures tables == old(tables)[pt := SplitPage(base)]
    {
      var i := 0;
      while i < N_ENTRIES
        invariant i <= N_ENTRIES
        invariant Valid() && free == old(free) && ram == old(ram)
        invariant pt in tables && |tables[pt]| == N_ENTRIES
        invariant tables == old(tables)[pt := tables[pt]]
        invariant forall x :: 0 <= x < i ==> tables[pt][x] == SplitPage(base)[x]
      {
        var addr := base + i * PAGE_SIZE;
        var v;
        if NoCacheRegion(addr) != 0 {
          v := WithFlags(addr, EPT_R + EPT_W + EPT_X);
        } else {
          v := WithFlags(addr, EPT_R + EPT_W + EPT_X + EPT_CACHE_2 + EPT_CACHE_3);
        }
        assert v == PtLeaf(addr);
        SetEntry(pt, i, v);
        i := i + 1;
      }
      assert tables[pt] == SplitPage(base);
    }

    /**
     * split_2M_mapping: find the PD entry, return 1 if it is no 2-MByte
     * leaf, else allocate a PT page, fill it with 512 4-KByte leaves over
     * the leaf's range, and point the PD entry at it. The result is
     * SplitSpec on the arena and the free pages; the ghost layout records
     * the new PT.
     */
    method Split2M(root: nat, paddr: nat, ghost l: Layout) returns (r: int, ghost l': Layout)
      requires Valid()
      modifies this
      ensures Valid() && ram == old(ram)
      ensures var s := SplitSpec(old(tables), old(free), root, l, paddr);
        && r == s.code && tables == s.tables && l' == s.layout
        && s.used <= |old(free)| && free == old(free)[s.used..]
    {
      l' := l;
      if paddr % PAGESIZE2M != 0 {
        return 0, l;
      }
      var s := FindPdEntry(tables, root, paddr);
      var e := Entry(tables, s.page, s.index);
      if e % (2 * EPT_2M_PAGE) < EPT_2M_PAGE {
        return 1, l;
      }
      NoBitsOutside(tables, s.page, s.index);
      var base := e - e % PAGESIZE2M;
      ghost var T := tables;
      var ok, pt := AllocTable();
      if !ok {
        return 0, l;
      }
      FillSplit(pt, base);
      SetEntry(s.page, s.index, pt + EPT_R + EPT_W + EPT_X);
      assert tables == SplitTables(T, s.page, s.index, pt);
      r := 1;
      l' := l.(pts := l.pts[Frame(paddr) := pt]);
    }

    /**
     * The part of replace_ept_page after the split: find the PT entry,
     * allocate and clear the copy, compare the entry's address with
     * `paddr`, and on a match redirect the entry and copy the page. The
     * result is ReplaceLeafSpec on the arena, with the free pages being
     * what is left of `pool` after its first `used` pages.
     */
    method ReplaceLeaf(root: nat, paddr: nat, ghost l: Layout, ghost pool: seq<nat>, ghost used: nat) returns (r: Option<nat>)
      requires Valid() && used <= |pool| && free == pool[used..] && paddr !in free
      modifies this
      ensures Valid()
      ensures var q := ReplaceLeafSpec(old(tables), pool, used, root, l, paddr);
        && r == q.page && tables == q.tables && free == pool[used + q.used..]
        && (q.used == 0 ==> ram == old(ram))
        && (q.used == 1 ==>
              && ram == old(ram)[pool[used] := if r.Some? then Contents(old(ram), paddr) else ZeroBytes()])
    {
      var slot := FindPtEntry(tables, root, paddr);
      if slot.None? {
        return None;
      }
      var pte := slot.value;
      var got, n := AllocData();
      if !got {
        return None;
      }
      assert pool[used..][1..] == pool[used + 1..];
      var e := Entry(tables, pte.page, pte.index);
      var orig := e - e % PAGE_SIZE;
      if orig != paddr || pte.page !in tables || pte.index >= |tables[pte.page]| {
        return None;
      }
      SetEntry(pte.page, pte.index, WithFlags(n, EPT_R + EPT_W + EPT_X + EPT_CACHE_2 + EPT_CACHE_3));
      ram := ram[n := Contents(ram, orig)];
      r := Some(n);
    }

    /**
     * replace_ept_page: split the 2-MByte frame of `paddr` (NULL if that
     * fails), then ReplaceLeaf. The result is ReplaceSpec on the arena and
     * the free pages; on success the new page holds a copy of the old one,
     * and no page outside the free list changes its contents.
     */
    method ReplaceEptPage(root: nat, paddr: nat, ghost l: Layout) returns (r: Option<nat>, ghost l': Layout)
      requires Valid() && paddr !in free
      modifies this
      ensures Valid()
      ensures var q := ReplaceSpec(old(tables), old(free), root, l, paddr);
        && r == q.page && tables == q.tables && l' == q.layout
        && q.used <= |old(free)| && free == old(free)[q.used..]
      ensures r.Some? ==> ram == old(ram)[r.value := Contents(old(ram), paddr)]
      ensures forall p: nat :: p !in old(free) ==> Contents(ram, p) == Contents(old(ram), p)
    {
      ghost var T0, F0 := tables, free;
      var splitAddr := paddr - paddr % PAGESIZE2M;
      ghost var s := SplitSpec(T0, F0, root, l, splitAddr);
      ReplaceAfterSplit(T0, F0, root, l, paddr, s);
      var ok;
      ok, l' := Split2M(root, splitAddr, l);
      if ok == 0 {
        return None, l';
      }
      r := ReplaceLeaf(root, paddr, l', F0, s.used);
    }

    /**
     * One iteration of the loop of clone_kstack2: replace_ept_page on the
     * next stack page. On success the copy joins those made so far; on
     * failure the loop's outcome is known.
     */
    method ClonePage(root: nat, pages: seq<nat>, i: nat, ghost T0: Tables, ghost F0: seq<nat>, ghost R0: map<nat, Bytes>,
                     ghost l0: Layout, ghost copies: seq<nat>, ghost used: nat, ghost l: Layout)
        returns (page: Option<nat>, ghost l': Layout, ghost u: nat)
      requires Valid() && i == |copies| < |pages| && Distinct(F0)
      requires forall k :: 0 <= k < |pages| ==> pages[k] !in F0
      requires Cloned(tables, free, ram, root, pages, T0, F0, R0, l0, copies, used, l)
      modifies this
      ensures Valid()
      ensures page.Some? ==> Cloned(tables, free, ram, root, pages, T0, F0, R0, l0, copies + [page.value], used + u, l')
      ensures page.None? ==>
        && used + u <= |F0| && free == F0[used + u..]
        && CloneFrom(T0, F0, root, l0, pages) == CloneResult(false, copies, tables, used + u, l')
      ensures forall p: nat :: p !in old(free) ==> Contents(ram, p) == Contents(old(ram), p)
    {
      ghost var T, F, R := tables, free, ram;
      page, l' := ReplaceEptPage(root, pages[i], l);
      u := CloneNext(T, F, R, root, pages, T0, F0, R0, l0, copies, used, l, page, tables, free, ram, l');
    }

    /**
     * clone_kstack2: replace_ept_page on each of the four pages of the
     * kernel stack whose physical base is `stack`, giving up at the first
     * failure. It returns 1 when all four were cloned, else 0, and the copy
     * of the first page (where thread_info lies) once that page is cloned.
     * On success each copy holds its stack page's contents; no page outside
     * the free list changes its contents in any case.
     */
    method CloneKstack2(root: nat, stack: nat, ghost l: Layout) returns (r: int, threadInfo: Option<nat>, ghost l': Layout)
      requires Valid() && forall k :: 0 <= k < STACK_PAGES ==> StackPages(stack)[k] !in free
      modifies this
      ensures Valid()
      ensures var c := CloneFrom(old(tables), old(free), root, l, StackPages(stack));
        && r == (if c.ok then 1 else 0)
        && threadInfo == (if |c.copies| > 0 then Some(c.copies[0]) else None)
        && tables == c.tables && l' == c.layout && c.used <= |old(free)| && free == old(free)[c.used..]
        && (c.ok ==> ram == CloneRam(old(ram), c.copies, StackPages(stack)))
      ensures forall p: nat :: p !in old(free) ==> Contents(ram, p) == Contents(old(ram), p)
    {
      var pages := StackPages(stack);
      ghost var T0, F0, R0 := tables, free, ram;
      ghost var copies: seq<nat> := [];
      ghost var used: nat := 0;
      l' := l;
      threadInfo := None;
      r := 1;
      var i := 0;
      assert pages[0..] == pages;
      while i < STACK_PAGES
        invariant i <= STACK_PAGES && Valid() && |copies| == i
        invariant threadInfo == (if i > 0 then Some(copies[0]) else None)
        invariant Cloned(tables, free, ram, root, pages, T0, F0, R0, l, copies, used, l')
      {
        var page;
        ghost var u;
        CloneRamFrame(R0, copies, pages, F0);
        page, l', u := ClonePage(root, pages, i, T0, F0, R0, l, copies, used, l');
        if page.None? {
          r := 0;
          break;
        }
        if i == 0 {
          threadInfo := page;
        }
        copies, used := copies + [page.value], used + u;
        i := i + 1;
      }
      if r == 1 {
        CloneDone(T0, F0, root, l, pages, copies, used, tables, free, l');
        CloneRamFrame(R0, copies, pages, F0);
      }
    }
  }

  /**
   * Where the loop of clone_kstack2 stands after `copies` were made, from
   * tables T0, pool F0 and contents R0, with tables t, free pages f and
   * contents ram now: the pool pages taken so far, the outcome of the rest
   * of the loop, and each copy holding its stack page.
   */
  ghost predicate Cloned(t: Tables, f: seq<nat>, ram: map<nat, Bytes>, root: nat, pages: seq<nat>,
                         T0: Tables, F0: seq<nat>, R0: map<nat, Bytes>, l0: Layout, copies: seq<nat>, used: nat, l: Layout)
  {
    && |copies| <= |pages| && used <= |F0| && f == F0[used..]
    && CloneFrom(T0, F0, root, l0, pages) == Join(copies, used, CloneFrom(t, f, root, l, pages[|copies|..]))
    && (forall k :: 0 <= k < |copies| ==> copies[k] in F0)
    && ram == CloneRam(R0, copies, pages)
  }

  /** The loop's bookkeeping across one replace_ept_page on stack page |copies|, from tables t, free pages f and contents ram to t', f', ram'. */
  lemma CloneNext(t: Tables, f: seq<nat>, ram: map<nat, Bytes>, root: nat, pages: seq<nat>,
                  T0: Tables, F0: seq<nat>, R0: map<nat, Bytes>, l0: Layout, copies: seq<nat>, used: nat, l: Layout,
                  page: Option<nat>, t': Tables, f': seq<nat>, ram': map<nat, Bytes>, l': Layout)
      returns (u: nat)
    requires Cloned(t, f, ram, root, pages, T0, F0, R0, l0, copies, used, l)
    requires |copies| < |pages| && Distinct(F0) && forall k :: 0 <= k < |pages| ==> pages[k] !in F0
    requires var q := ReplaceSpec(t, f, root, l, pages[|copies|]);
      && page == q.page && t' == q.tables && l' == q.layout && q.used <= |f| && f' == f[q.used..]
    requires page.Some? ==> ram' == ram[page.value := Contents(ram, pages[|copies|])]
    ensures page.Some? ==> Cloned(t', f', ram', root, pages, T0, F0, R0, l0, copies + [page.value], used + u, l')
    ensures page.None? ==>
      && used + u <= |F0| && f' == F0[used + u..]
      && CloneFrom(T0, F0, root, l0, pages) == CloneResult(false, copies, t', used + u, l')
  {
    var i := |copies|;
    if page.None? {
      u := CloneStops(T0, F0, root, l0, pages, copies, used, t, f, l, i, t', l', f');
    } else {
      u := CloneAdvance(T0, F0, root, l0, pages, copies, used, t, f, l, i, page.value, t', l', f');
      CloneRamStep(R0, copies, pages, F0, page.value);
      var copies' := copies + [page.value];
      forall k | 0 <= k < |copies'| ensures copies'[k] in F0 {
        if k < i {
          assert copies'[k] == copies[k];
        }
      }
    }
  }

  /**
   * The contents after clone_kstack2 made `copies`: copy k holds what stack
   * page k held in `ram`, and every other page is as in `ram`.
   */
  function CloneRam(ram: map<nat, Bytes>, copies: seq<nat>, pages: seq<nat>): (r: map<nat, Bytes>)
    requires |copies| <= |pages|
    decreases |copies|
  {
    if copies == [] then ram
    else
      var k := |copies| - 1;
      CloneRam(ram, copies[..k], pages)[copies[k] := Contents(ram, pages[k])]
  }

  /** A page that is not a copy keeps its contents. */
  lemma {:induction false} CloneRamKeeps(ram: map<nat, Bytes>, copies: seq<nat>, pages: seq<nat>, p: nat)
    requires |copies| <= |pages| && p !in copies
    ensures Contents(CloneRam(ram, copies, pages), p) == Contents(ram, p)
    decreases |copies|
  {
    if copies != [] {
      var k := |copies| - 1;
      assert p != copies[k];
      CloneRamKeeps(ram, copies[..k], pages, p);
    }
  }

  /** Copies taken from the pool leave every page outside it as it was. */
  lemma CloneRamFrame(ram: map<nat, Bytes>, copies: seq<nat>, pages: seq<nat>, pool: seq<nat>)
    requires |copies| <= |pages| && forall k :: 0 <= k < |copies| ==> copies[k] in pool
    ensures forall p: nat :: p !in pool ==> Contents(CloneRam(ram, copies, pages), p) == Contents(ram, p)
  {
    forall p: nat | p !in pool
      ensures Contents(CloneRam(ram, copies, pages), p) == Contents(ram, p)
    {
      CloneRamKeeps(ram, copies, pages, p);
    }
  }

  /** Each copy holds its stack page, when no copy is listed twice. */
  lemma {:induction false} CloneRamCopies(ram: map<nat, Bytes>, copies: seq<nat>, pages: seq<nat>, k: nat)
    requires |copies| <= |pages| && k < |copies| && Distinct(copies)
    ensures Contents(CloneRam(ram, copies, pages), copies[k]) == Contents(ram, pages[k])
    decreases |copies|
  {
    var n := |copies| - 1;
    if k < n {
      assert copies[k] != copies[n];
      assert copies[..n][k] == copies[k];
      CloneRamCopies(ram, copies[..n], pages, k);
    }
  }

  /** The loop step on contents: the next copy receives the next stack page, which no earlier copy overwrote. */
  lemma CloneRamStep(ram: map<nat, Bytes>, copies: seq<nat>, pages: seq<nat>, pool: seq<nat>, copy: nat)
    requires |copies| < |pages| && pages[|copies|] !in pool
    requires forall k :: 0 <= k < |copies| ==> copies[k] in pool
    ensures CloneRam(ram, copies + [copy], pages)
      == CloneRam(ram, copies, pages)[copy := Contents(CloneRam(ram, copies, pages), pages[|copies|])]
  {
    assert (copies + [copy])[..|copies|] == copies;
    assert pages[|copies|] !in copies by {
      forall k | 0 <= k < |copies| ensures copies[k] != pages[|copies|] {
        assert copies[k] in pool;
      }
    }
    CloneRamKeeps(ram, copies, pages, pages[|copies|]);
  }

  /**
   * clone_kstack2's promise about memory: when every stack page was
   * cloned, copy k holds what stack page k held before.
   */
  lemma CloneCopiesHold(ram: map<nat, Bytes>, t: Tables, pool: seq<nat>, root: nat, l: Layout, stack: nat)
    requires Distinct(pool)
    ensures var c := CloneFrom(t, pool, root, l, StackPages(stack));
      c.ok ==> forall k :: 0 <= k < STACK_PAGES ==>
        Contents(CloneRam(ram, c.copies, StackPages(stack)), c.copies[k]) == Contents(ram, StackPages(stack)[k])
  {
    var pages := StackPages(stack);
    var c := CloneFrom(t, pool, root, l, pages);
    CloneCopiesFromPool(t, pool, root, l, pages);
    if c.ok {
      forall k | 0 <= k < STACK_PAGES
        ensures Contents(CloneRam(ram, c.copies, pages), c.copies[k]) == Contents(ram, pages[k])
      {
        CloneRamCopies(ram, c.copies, pages, k);
      }
    }
  }

  /** The first n free pages are outside the tables and distinct. */
  /**
   * Pages the lower half took are still tables after the upper half, and
   * the upper half took the rest.
   */
  lemma TakenStayTaken(F: seq<nat>, F2: seq<nat>, T2: Tables, t: Tables, k: nat)
    requires k <= |F| && F2 == F[k..]
    requires forall i :: 0 <= i < k ==> F[i] in T2
    requires Extends(T2, t)
    requires forall i :: 0 <= i < |F2| ==> F2[i] in t
    ensures forall i :: 0 <= i < |F| ==> F[i] in t
  {
    forall i | 0 <= i < |F| ensures F[i] in t {
      if i >= k {
        assert F[i] == F2[i - k];
      }
    }
  }

  lemma FreshPrefix(t: Tables, free: seq<nat>, n: nat)
    requires n <= |free|
    requires forall i :: 0 <= i < |free| ==> PageAddr(free[i]) && free[i] != 0 && free[i] !in t
    requires forall i, j :: 0 <= i < j < |free| ==> free[i] != free[j]
    ensures forall k :: 0 <= k < n ==> free[..n][k] !in t
    ensures forall k1, k2 :: 0 <= k1 < k2 < n ==> free[..n][k1] != free[..n][k2]
  {
  }

  /** IdentityMap for every address at once. */
  lemma BuiltIsIdentity(t: Tables, root: nat, pt: nat, pdpt: nat, pds: seq<nat>)
    requires Built(t, root, pt, pdpt, pds)
    ensures forall gpa: nat :: gpa < |pds| * GIGABYTE ==> Walk(t, root, gpa) == Some(Translation(gpa, IdentityLeaf(gpa)))
    ensures forall gpa: nat :: gpa >= |pds| * GIGABYTE ==> Walk(t, root, gpa) == None
  {
    forall gpa: nat
      ensures gpa < |pds| * GIGABYTE ==> Walk(t, root, gpa) == Some(Translation(gpa, IdentityLeaf(gpa)))
      ensures gpa >= |pds| * GIGABYTE ==> Walk(t, root, gpa) == None
    {
      IdentityMap(t, root, pt, pdpt, pds, gpa);
    }
  }

  /** The pages taken in order from a pool of distinct page addresses, filled as vt_ept_2M_init fills them, are Built. */
  lemma BuiltFromParts(F: seq<nat>, t: Tables, t2: Tables, n: nat, root: nat, pt: nat, pdpt: nat, pds: seq<nat>)
    requires 1 <= n <= PML4E_MAP_LIMIT && n + 3 <= |F|
    requires forall i :: 0 <= i < |F| ==> PageAddr(F[i])
    requires forall i, j :: 0 <= i < j < |F| ==> F[i] != F[j]
    requires pt == F[0] && pds == F[1..n + 1] && pdpt == F[n + 1] && root == F[n + 2]
    requires Extends(t2, t)
    requires pt in t2 && t2[pt] == PtPage()
    requires pds[0] in t2 && t2[pds[0]] == FirstPdPage(pt)
    requires forall k :: 1 <= k < n ==> pds[k] in t2 && t2[pds[k]] == PdPage(k)
    requires pdpt in t && t[pdpt] == PdptPage(pds)
    requires root in t && t[root] == Pml4Page(pdpt)
    ensures Built(t, root, pt, pdpt, pds)
  {
    forall k | 0 <= k < |pds| ensures pds[k] == F[k + 1] {
    }
    forall k1, k2 | 0 <= k1 < k2 < |pds| ensures pds[k1] != pds[k2] {
      assert pds[k1] == F[k1 + 1] && pds[k2] == F[k2 + 1];
    }
    forall k | 0 <= k < |pds| ensures TablePage(t, pds[k]) {
      assert pds[k] == F[k + 1];
      if k == 0 { assert t[pds[0]] == FirstPdPage(pt); }
    }
  }
}
