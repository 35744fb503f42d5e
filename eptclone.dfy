/**
 * clone_kstack2: replace_ept_page applied in turn to the four 4-KByte pages
 * of the current kernel stack, stopping at the first NULL. On success every
 * stack page is mapped, write-back, to its own copy.
 */
module EptClone {
  import opened Words
  import opened EptEntry
  import opened EptWalk
  import opened EptOps

  /** THREAD_SIZE / PAGESIZE; the source stops with BUG_ON for any other count. */
  const STACK_PAGES: nat := 4

  /** The physical address of stack page i is the stack's physical base plus i pages. */
  function StackPages(stack: nat): (r: seq<nat>)
    ensures |r| == STACK_PAGES
    ensures forall i :: 0 <= i < STACK_PAGES ==> r[i] == stack + i * PAGE_SIZE
  {
    seq(STACK_PAGES, i => stack + i * PAGE_SIZE)
  }

  /** No page is listed twice. */
  predicate Distinct(s: seq<nat>) {
    forall i, j :: 0 <= i < j < |s| ==> s[i] != s[j]
  }

  /** `gpa` is mapped, write-back and with full access, to the same offset in the page `copy`. */
  predicate MapsToCopy(t: Tables, root: nat, gpa: nat, copy: nat) {
    Walk(t, root, gpa) == Some(Translation(copy + gpa % PAGE_SIZE, ReplacedLeaf(copy)))
  }

  /** Whether every page was cloned, the copies made before the first NULL, the arena, the pool pages taken, the layout. */
  datatype CloneResult = CloneResult(ok: bool, copies: seq<nat>, tables: Tables, used: nat, layout: Layout)

  /**
   * The loop of clone_kstack2 over `pages`: each page in turn through
   * replace_ept_page with what is left of the pool, giving up at the first
   * NULL. It succeeds exactly when it made a copy of every page.
   */
  function CloneFrom(t: Tables, pool: seq<nat>, root: nat, l: Layout, pages: seq<nat>): (c: CloneResult)
    ensures c.ok <==> |c.copies| == |pages|
    ensures |c.copies| <= |pages| && c.used <= |pool|
    decreases |pages|, 2
  {
    if pages == [] then CloneResult(true, [], t, 0, l) else CloneOn(t, pool, root, l, pages)
  }

  /** CloneFrom on a non-empty list: its first page, then the others. */
  function CloneOn(t: Tables, pool: seq<nat>, root: nat, l: Layout, pages: seq<nat>): (c: CloneResult)
    requires pages != []
    ensures c.ok <==> |c.copies| == |pages|
    ensures |c.copies| <= |pages| && c.used <= |pool|
    decreases |pages|, 1
  {
    CloneFirst(t, pool, root, l, pages[0], pages[1..])
  }

  /** replace_ept_page on page p, then, unless that gave NULL, the loop on the pages that follow it. */
  function CloneFirst(t: Tables, pool: seq<nat>, root: nat, l: Layout, p: nat, rest: seq<nat>): (c: CloneResult)
    ensures c.ok <==> |c.copies| == 1 + |rest|
    ensures |c.copies| <= 1 + |rest| && c.used <= |pool|
    decreases |rest| + 1, 0
  {
    ReplaceUses(t, pool, root, l, p);
    var q := ReplaceSpec(t, pool, root, l, p);
    if q.page.None? then CloneResult(false, [], q.tables, q.used, q.layout)
    else
      var c := CloneFrom(q.tables, pool[q.used..], root, q.layout, rest);
      CloneResult(c.ok, [q.page.value] + c.copies, c.tables, q.used + c.used, c.layout)
  }

  /** The copies and pool pages of earlier steps put in front of the outcome of the remaining ones. */
  function Join(copies: seq<nat>, used: nat, c: CloneResult): (r: CloneResult)
    ensures r.ok == c.ok && r.copies == copies + c.copies && r.used == used + c.used
    ensures r.tables == c.tables && r.layout == c.layout
  {
    CloneResult(c.ok, copies + c.copies, c.tables, used + c.used, c.layout)
  }

  /** Taking one more step of the loop: its copy and pool pages move to the front part. */
  lemma JoinStep(copies: seq<nat>, used: nat, copy: nat, u: nat, rest: CloneResult)
    ensures Join(copies, used, Join([copy], u, rest)) == Join(copies + [copy], used + u, rest)
  {
    assert copies + ([copy] + rest.copies) == copies + [copy] + rest.copies;
  }

  /** CloneFrom on a non-empty list, one step unfolded. */
  lemma CloneUnfold(t: Tables, pool: seq<nat>, root: nat, l: Layout, pages: seq<nat>)
    requires pages != []
    ensures var q := ReplaceSpec(t, pool, root, l, pages[0]);
      && q.used <= |pool|
      && (q.page.None? ==> CloneFrom(t, pool, root, l, pages) == CloneResult(false, [], q.tables, q.used, q.layout))
      && (q.page.Some? ==>
            CloneFrom(t, pool, root, l, pages) == Join([q.page.value], q.used, CloneFrom(q.tables, pool[q.used..], root, q.layout, pages[1..])))
  {
    assert CloneFrom(t, pool, root, l, pages) == CloneFirst(t, pool, root, l, pages[0], pages[1..]);
    ReplaceUses(t, pool, root, l, pages[0]);
  }

  /** One step of the loop of clone_kstack2 from position i of `pages`, as the loop body takes it. */
  lemma CloneStep(t: Tables, pool: seq<nat>, root: nat, l: Layout, pages: seq<nat>, i: nat)
    requires i < |pages|
    ensures var q := ReplaceSpec(t, pool, root, l, pages[i]);
      && q.used <= |pool|
      && (q.page.None? ==> CloneFrom(t, pool, root, l, pages[i..]) == CloneResult(false, [], q.tables, q.used, q.layout))
      && (q.page.Some? ==>
            CloneFrom(t, pool, root, l, pages[i..]) == Join([q.page.value], q.used, CloneFrom(q.tables, pool[q.used..], root, q.layout, pages[i + 1..])))
  {
    assert pages[i..][0] == pages[i];
    assert pages[i..][1..] == pages[i + 1..];
    CloneUnfold(t, pool, root, l, pages[i..]);
  }

  /**
   * The loop's bookkeeping across one successful replace_ept_page on
   * page i: `u` pool pages were taken, the last of them is the copy, and
   * the outcome of the whole loop is unchanged once the copy moves to the
   * front part.
   */
  lemma CloneAdvance(t0: Tables, pool0: seq<nat>, root: nat, l0: Layout, pages: seq<nat>, copies: seq<nat>, used: nat,
                     t: Tables, pool: seq<nat>, l: Layout, i: nat, copy: nat, t': Tables, l': Layout, pool': seq<nat>)
      returns (u: nat)
    requires i < |pages| && Distinct(pool0) && used <= |pool0| && pool == pool0[used..]
    requires CloneFrom(t0, pool0, root, l0, pages) == Join(copies, used, CloneFrom(t, pool, root, l, pages[i..]))
    requires var q := ReplaceSpec(t, pool, root, l, pages[i]);
      && Some(copy) == q.page && t' == q.tables && l' == q.layout && q.used <= |pool| && pool' == pool[q.used..]
    ensures 1 <= u && used + u <= |pool0| && pool' == pool0[used + u..]
    ensures copy == pool0[used + u - 1] && copy !in pool' && forall p :: p in pool' ==> p in pool
    ensures CloneFrom(t0, pool0, root, l0, pages) == Join(copies + [copy], used + u, CloneFrom(t', pool', root, l', pages[i + 1..]))
  {
    CloneStep(t, pool, root, l, pages, i);
    ReplaceTakes(t, pool, root, l, pages[i]);
    u := ReplaceSpec(t, pool, root, l, pages[i]).used;
    assert pool0[used..][u..] == pool0[used + u..];
    assert pool0[used..][u - 1] == pool0[used + u - 1];
    forall k | 0 <= k < |pool'| ensures pool'[k] != copy {
      assert pool'[k] == pool0[used + u + k];
    }
    JoinStep(copies, used, copy, u, CloneFrom(t', pool', root, l', pages[i + 1..]));
  }

  /** The loop's bookkeeping when replace_ept_page fails on page i: the loop ends there, with the copies made so far. */
  lemma CloneStops(t0: Tables, pool0: seq<nat>, root: nat, l0: Layout, pages: seq<nat>, copies: seq<nat>, used: nat,
                   t: Tables, pool: seq<nat>, l: Layout, i: nat, t': Tables, l': Layout, pool': seq<nat>)
      returns (u: nat)
    requires i < |pages| && used <= |pool0| && pool == pool0[used..]
    requires CloneFrom(t0, pool0, root, l0, pages) == Join(copies, used, CloneFrom(t, pool, root, l, pages[i..]))
    requires var q := ReplaceSpec(t, pool, root, l, pages[i]);
      && q.page.None? && t' == q.tables && l' == q.layout && q.used <= |pool| && pool' == pool[q.used..]
    ensures used + u <= |pool0| && pool' == pool0[used + u..]
    ensures CloneFrom(t0, pool0, root, l0, pages) == CloneResult(false, copies, t', used + u, l')
  {
    CloneStep(t, pool, root, l, pages, i);
    u := ReplaceSpec(t, pool, root, l, pages[i]).used;
    assert pool0[used..][u..] == pool0[used + u..];
    assert copies + [] == copies;
  }

  /** The loop's bookkeeping once every page was cloned: the loop succeeded with exactly the copies made. */
  lemma CloneDone(t0: Tables, pool0: seq<nat>, root: nat, l0: Layout, pages: seq<nat>, copies: seq<nat>, used: nat,
                  t: Tables, pool: seq<nat>, l: Layout)
    requires |copies| == |pages|
    requires CloneFrom(t0, pool0, root, l0, pages) == Join(copies, used, CloneFrom(t, pool, root, l, pages[|copies|..]))
    ensures CloneFrom(t0, pool0, root, l0, pages) == CloneResult(true, copies, t, used, l)
  {
    assert pages[|copies|..] == [];
    assert copies + [] == copies;
  }

  /** The copies are distinct pages, all from the part of the pool the loop took. */
  lemma {:induction false} CloneCopiesFromPool(t: Tables, pool: seq<nat>, root: nat, l: Layout, pages: seq<nat>)
    requires Distinct(pool)
    ensures var c := CloneFrom(t, pool, root, l, pages);
      && Distinct(c.copies) && forall k :: 0 <= k < |c.copies| ==> c.copies[k] in pool[..c.used]
    decreases |pages|
  {
    if pages != [] {
      CloneUnfold(t, pool, root, l, pages);
      ReplaceTakes(t, pool, root, l, pages[0]);
      var q := ReplaceSpec(t, pool, root, l, pages[0]);
      if q.page.Some? {
        DropDistinct(pool, q.used);
        var rest := CloneFrom(q.tables, pool[q.used..], root, q.layout, pages[1..]);
        CloneCopiesFromPool(q.tables, pool[q.used..], root, q.layout, pages[1..]);
        PrependCopy(pool, q.used, rest.copies, rest.used, CloneFrom(t, pool, root, l, pages).copies);
      }
    }
  }

  /** What is left of a pool of distinct pages is again distinct. */
  lemma DropDistinct(pool: seq<nat>, n: nat)
    requires Distinct(pool) && n <= |pool|
    ensures Distinct(pool[n..])
  {
    forall i, j | 0 <= i < j < |pool[n..]| ensures pool[n..][i] != pool[n..][j] {
      assert pool[n..][i] == pool[n + i] && pool[n..][j] == pool[n + j];
    }
  }

  /** The copy from pool page u-1 put before distinct copies from the pool pages after it. */
  lemma PrependCopy(pool: seq<nat>, u: nat, rest: seq<nat>, restUsed: nat, c: seq<nat>)
    requires Distinct(pool) && 1 <= u && u + restUsed <= |pool|
    requires Distinct(rest) && forall k :: 0 <= k < |rest| ==> rest[k] in pool[u..][..restUsed]
    requires c == [pool[u - 1]] + rest
    ensures Distinct(c) && forall k :: 0 <= k < |c| ==> c[k] in pool[..u + restUsed]
  {
    forall k | 0 <= k < |rest| ensures exists j :: u <= j < u + restUsed && rest[k] == pool[j] {
      var j :| 0 <= j < restUsed && pool[u..][..restUsed][j] == rest[k];
      assert rest[k] == pool[u + j];
    }
    forall k | 0 <= k < |c| ensures c[k] in pool[..u + restUsed] {
      if k == 0 {
        assert c[0] == pool[..u + restUsed][u - 1];
      } else {
        assert c[k] == rest[k - 1];
        var j :| u <= j < u + restUsed && rest[k - 1] == pool[j];
        assert c[k] == pool[..u + restUsed][j];
      }
    }
    forall a, b | 0 <= a < b < |c| ensures c[a] != c[b] {
      assert c[b] == rest[b - 1];
      if a == 0 {
        var j :| u <= j < u + restUsed && rest[b - 1] == pool[j];
      } else {
        assert c[a] == rest[a - 1];
      }
    }
  }

  /** replace_ept_page never takes more pages than the pool holds. */
  lemma ReplaceUses(t: Tables, pool: seq<nat>, root: nat, l: Layout, paddr: nat)
    ensures ReplaceSpec(t, pool, root, l, paddr).used <= |pool|
  {
    ReplaceTakes(t, pool, root, l, paddr);
  }

  /**
   * What replace_ept_page takes from the pool, on any tables: no more than
   * the pool holds, the page it returns is the last one taken, and the only
   * table page it can add is the pool's first.
   */
  lemma ReplaceTakes(t: Tables, pool: seq<nat>, root: nat, l: Layout, paddr: nat)
    ensures var r := ReplaceSpec(t, pool, root, l, paddr);
      && r.used <= |pool|
      && (r.page.Some? ==> 1 <= r.used && r.page.value == pool[r.used - 1])
      && (forall p :: p in r.tables ==> p in t || (1 <= r.used && p == pool[0]))
  {
    var s := SplitSpec(t, pool, root, l, paddr - paddr % PAGESIZE2M);
    ReplaceAfterSplit(t, pool, root, l, paddr, s);
  }

  /** After one replace_ept_page the rest of a fresh, duplicate-free pool is still fresh and duplicate-free. */
  lemma FreshAfterReplace(t: Tables, pool: seq<nat>, root: nat, l: Layout, paddr: nat)
    requires Fresh(t, pool) && Distinct(pool)
    ensures var r := ReplaceSpec(t, pool, root, l, paddr);
      r.used <= |pool| && Fresh(r.tables, pool[r.used..]) && Distinct(pool[r.used..])
  {
    ReplaceTakes(t, pool, root, l, paddr);
    var r := ReplaceSpec(t, pool, root, l, paddr);
    var rest := pool[r.used..];
    forall i | 0 <= i < |rest| ensures PageAddr(rest[i]) && rest[i] !in r.tables {
      assert rest[i] == pool[r.used + i];
      if 1 <= r.used {
        assert pool[0] != pool[r.used + i];
      }
    }
  }

  /**
   * The cloning loop leaves alone the walk of any address outside the
   * pages it clones whose frame is already split.
   */
  lemma {:induction false} CloneKeeps(t: Tables, pool: seq<nat>, root: nat, l: Layout, pages: seq<nat>, gpa: nat)
    requires Shaped(t, root, l) && Fresh(t, pool) && Distinct(pool)
    requires forall p <- pages :: p < Extent(l) && gpa / PAGE_SIZE != p / PAGE_SIZE
    requires Frame(gpa) in l.pts
    ensures Walk(CloneFrom(t, pool, root, l, pages).tables, root, gpa) == Walk(t, root, gpa)
    decreases |pages|
  {
    if pages != [] {
      assert pages[0] in pages;
      var q := ReplaceSpec(t, pool, root, l, pages[0]);
      CloneUnfold(t, pool, root, l, pages);
      ReplaceKeepsWalks(t, pool, root, l, pages[0]);
      if q.page.Some? {
        ReplaceReturns(t, pool, root, l, pages[0]);
        ReplaceSpecShaped(t, pool, root, l, pages[0]);
        FreshAfterReplace(t, pool, root, l, pages[0]);
        forall p <- pages[1..] ensures p < Extent(q.layout) && gpa / PAGE_SIZE != p / PAGE_SIZE {
          assert p in pages;
        }
        CloneKeeps(q.tables, pool[q.used..], root, q.layout, pages[1..], gpa);
      }
    }
  }

  /**
   * The first step of the cloning loop, when the whole loop succeeds: the
   * tables, pool and layout it leaves are again shaped and fresh, every
   * address in the first page is mapped to the first copy, and the rest of
   * the loop is CloneFrom on what the step left.
   */
  lemma CloneHead(t: Tables, pool: seq<nat>, root: nat, l: Layout, pages: seq<nat>)
      returns (t1: Tables, pool1: seq<nat>, l1: Layout)
    requires Shaped(t, root, l) && Fresh(t, pool) && Distinct(pool)
    requires forall p <- pages :: p < Extent(l)
    requires pages != [] && CloneFrom(t, pool, root, l, pages).ok
    ensures Shaped(t1, root, l1) && Fresh(t1, pool1) && Distinct(pool1)
    ensures forall p <- pages[1..] :: p < Extent(l1)
    ensures var c := CloneFrom(t, pool, root, l, pages);
      var rest := CloneFrom(t1, pool1, root, l1, pages[1..]);
      rest.ok && c.tables == rest.tables && c.copies == [c.copies[0]] + rest.copies
    ensures var c := CloneFrom(t, pool, root, l, pages);
      forall gpa: nat :: gpa / PAGE_SIZE == pages[0] / PAGE_SIZE ==>
        Frame(gpa) in l1.pts && MapsToCopy(t1, root, gpa, c.copies[0])
  {
    assert pages[0] in pages;
    var q := ReplaceSpec(t, pool, root, l, pages[0]);
    CloneUnfold(t, pool, root, l, pages);
    ReplaceSpecShaped(t, pool, root, l, pages[0]);
    FreshAfterReplace(t, pool, root, l, pages[0]);
    ReplaceMapsPage(t, pool, root, l, pages[0]);
    ReplaceReturns(t, pool, root, l, pages[0]);
    t1, pool1, l1 := q.tables, pool[q.used..], q.layout;
    forall p <- pages[1..] ensures p < Extent(l1) {
      assert p in pages;
    }
  }

  /** After a successful replace_ept_page every address in the page lies in a split frame and maps to the copy. */
  lemma ReplaceMapsPage(t: Tables, pool: seq<nat>, root: nat, l: Layout, paddr: nat)
    requires Shaped(t, root, l) && paddr < Extent(l) && Fresh(t, pool)
    ensures var r := ReplaceSpec(t, pool, root, l, paddr);
      r.page.Some? ==> forall gpa: nat :: gpa / PAGE_SIZE == paddr / PAGE_SIZE ==>
        Frame(gpa) in r.layout.pts && MapsToCopy(r.tables, root, gpa, r.page.value)
  {
    var r := ReplaceSpec(t, pool, root, l, paddr);
    if r.page.Some? {
      ReplaceRedirects(t, pool, root, l, paddr);
      ReplaceReturns(t, pool, root, l, paddr);
      forall gpa: nat | gpa / PAGE_SIZE == paddr / PAGE_SIZE
        ensures Frame(gpa) in r.layout.pts && MapsToCopy(r.tables, root, gpa, r.page.value)
      {
        SameFrame(gpa, paddr);
      }
    }
  }

  /** Two addresses in one 4-KByte page lie in one 2-MByte frame. */
  lemma SameFrame(a: nat, b: nat)
    requires a / PAGE_SIZE == b / PAGE_SIZE
    ensures Frame(a) == Frame(b)
  {
    assert a == PAGESIZE2M * Frame(a) + a % PAGESIZE2M;
    assert b == PAGESIZE2M * Frame(b) + b % PAGESIZE2M;
    LargeQuotientSplit(Frame(a), a % PAGESIZE2M);
    LargeQuotientSplit(Frame(b), b % PAGESIZE2M);
  }

  /**
   * clone_kstack2's promise: when every stack page was cloned, an address
   * in stack page i is mapped, write-back, to the same offset in copy i.
   * The pages must be distinct 4-KByte pages below the extent.
   */
  lemma {:induction false} CloneRedirectsAt(t: Tables, pool: seq<nat>, root: nat, l: Layout, pages: seq<nat>, i: nat, gpa: nat)
    requires Shaped(t, root, l) && Fresh(t, pool) && Distinct(pool)
    requires forall p <- pages :: p < Extent(l)
    requires forall j, k :: 0 <= j < k < |pages| ==> pages[j] / PAGE_SIZE != pages[k] / PAGE_SIZE
    requires i < |pages| && gpa / PAGE_SIZE == pages[i] / PAGE_SIZE
    ensures var c := CloneFrom(t, pool, root, l, pages);
      c.ok ==> MapsToCopy(c.tables, root, gpa, c.copies[i])
    decreases |pages|
  {
    var c := CloneFrom(t, pool, root, l, pages);
    if c.ok {
      var t1, pool1, l1 := CloneHead(t, pool, root, l, pages);
      var rest := pages[1..];
      if i == 0 {
        forall p <- rest ensures gpa / PAGE_SIZE != p / PAGE_SIZE {
          var k :| 0 <= k < |rest| && rest[k] == p;
          assert p == pages[k + 1];
        }
        CloneKeeps(t1, pool1, root, l1, rest, gpa);
      } else {
        assert rest[i - 1] == pages[i];
        forall j, k | 0 <= j < k < |rest| ensures rest[j] / PAGE_SIZE != rest[k] / PAGE_SIZE {
          assert rest[j] == pages[j + 1] && rest[k] == pages[k + 1];
        }
        CloneRedirectsAt(t1, pool1, root, l1, rest, i - 1, gpa);
        assert c.copies[i] == CloneFrom(t1, pool1, root, l1, rest).copies[i - 1];
      }
    }
  }

  /** CloneRedirectsAt for every stack page and every address in it. */
  lemma CloneRedirects(t: Tables, pool: seq<nat>, root: nat, l: Layout, pages: seq<nat>)
    requires Shaped(t, root, l) && Fresh(t, pool) && Distinct(pool)
    requires forall p <- pages :: p < Extent(l)
    requires forall j, k :: 0 <= j < k < |pages| ==> pages[j] / PAGE_SIZE != pages[k] / PAGE_SIZE
    ensures var c := CloneFrom(t, pool, root, l, pages);
      c.ok ==> forall i, gpa: nat :: 0 <= i < |pages| && gpa / PAGE_SIZE == pages[i] / PAGE_SIZE ==>
        MapsToCopy(c.tables, root, gpa, c.copies[i])
  {
    var c := CloneFrom(t, pool, root, l, pages);
    if c.ok {
      forall i, gpa: nat | 0 <= i < |pages| && gpa / PAGE_SIZE == pages[i] / PAGE_SIZE
        ensures MapsToCopy(c.tables, root, gpa, c.copies[i])
      {
        CloneRedirectsAt(t, pool, root, l, pages, i, gpa);
      }
    }
  }

  /** The four stack pages lie in four different 4-KByte pages. */
  lemma StackPagesApart(stack: nat)
    ensures forall j, k :: 0 <= j < k < STACK_PAGES ==> StackPages(stack)[j] / PAGE_SIZE != StackPages(stack)[k] / PAGE_SIZE
  {
    forall j, k | 0 <= j < k < STACK_PAGES
      ensures StackPages(stack)[j] / PAGE_SIZE != StackPages(stack)[k] / PAGE_SIZE
    {
      PagesApart(stack, j, k);
    }
  }

  lemma PagesApart(stack: nat, j: nat, k: nat)
    requires j < k
    ensures (stack + j * PAGE_SIZE) / PAGE_SIZE < (stack + k * PAGE_SIZE) / PAGE_SIZE
  {
    assert (stack + j * PAGE_SIZE) / PAGE_SIZE == stack / PAGE_SIZE + j;
    assert (stack + k * PAGE_SIZE) / PAGE_SIZE == stack / PAGE_SIZE + k;
  }
}
