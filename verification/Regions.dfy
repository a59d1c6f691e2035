/** The outward-facing half of src/paging.c. The table of regions and the page tables are two
    descriptions of the same address space; this file says when they agree. */
module Regions {
  import opened Common
  import opened Pools
  import opened AddrTables
  import opened PageTree
  import opened PageSteps
  import opened PagingModel

  // ----- Addresses ---------------------------------------------------------------------------

  /** The sign-extended 48-bit addresses that the processor accepts. */
  predicate CanonicalAddr(vaddr: int)
  {
    -0x8000_0000_0000 <= vaddr < 0x8000_0000_0000
  }

  predicate PageAligned(vaddr: int)
  {
    CanonicalAddr(vaddr) && vaddr % PAGE_SIZE == 0
  }

  predicate Regular(m: AddrMapping)
  {
    && m.vbase % PAGE_SIZE == 0 && m.pbase % PAGE_SIZE == 0 && m.len % PAGE_SIZE == 0
    && 0 <= m.len && -0x8000_0000_0000 <= m.vbase && m.vbase + m.len <= 0x8000_0000_0000
  }

  lemma PagesAreDistinct(v: int, w: int)
    requires PageAligned(v) && PageAligned(w)
    ensures PageOf(v) == PageOf(w) ==> v == w
  {
    SamePathIsSamePage(v, w);
    if Vpn(v) == Vpn(w) {
      SameResidue(v / PAGE_SIZE, w / PAGE_SIZE);
    }
  }

  lemma SameResidue(x: int, y: int)
    requires -0x8_0000_0000 <= x < 0x8_0000_0000 && -0x8_0000_0000 <= y < 0x8_0000_0000
    requires x % NUM_PAGES == y % NUM_PAGES
    ensures x == y
  {
  }

  lemma NextPage(a: int, base: int, n: nat)
    requires a % PAGE_SIZE == 0 && base % PAGE_SIZE == 0
    ensures InRange(a, base, PAGE_SIZE * (n + 1)) <==> InRange(a, base, PAGE_SIZE * n) || a == AddrAt(base, n)
  {
  }

  lemma PageOfStart(v: int)
    ensures PageOf(v) == PageOf(v - v % PAGE_SIZE)
  {
    SamePathIsSamePage(v, v - v % PAGE_SIZE);
  }

  // ----- Agreement -----------------------------------------------------------------------------

  function LeafFor(m: AddrMapping, vaddr: int): Leaf
  {
    Leaf(m.pbase + (vaddr - m.vbase), m.perms, m.mem)
  }

  /** The page at `a` is mapped exactly if a region covers it, to that region's frame and with that
      region's permissions and memory type. */
  ghost predicate PageAgrees(maps: seq<AddrMapping>, used: seq<bool>, flat: imap<Page, Leaf>, a: int)
    requires |maps| == |used|
  {
    && (forall i :: 0 <= i < |maps| && Hit(maps, used, CoversVirt(a), i) ==>
          PageOf(a) in flat && flat[PageOf(a)] == LeafFor(maps[i], a))
    && (PageOf(a) in flat ==> exists i :: 0 <= i < |maps| && Hit(maps, used, CoversVirt(a), i))
  }

  ghost predicate Agree(maps: seq<AddrMapping>, used: seq<bool>, flat: imap<Page, Leaf>)
    requires |maps| == |used|
  {
    && (forall i :: 0 <= i < |maps| && used[i] ==> Regular(maps[i]))
    && (forall a {:trigger PageAgrees(maps, used, flat, a)} :: PageAligned(a) ==> PageAgrees(maps, used, flat, a))
  }

  /** Under agreement, the pages of every registered region are mapped to its frames, with exactly its
      permissions and its memory type, and no other page is mapped. */
  lemma PagesOfRegions(maps: seq<AddrMapping>, used: seq<bool>, flat: imap<Page, Leaf>)
    requires |maps| == |used| && Agree(maps, used, flat)
    ensures forall i, a :: 0 <= i < |maps| && used[i] && PageAligned(a) && InRange(a, maps[i].vbase, maps[i].len) ==>
              && PageOf(a) in flat
              && flat[PageOf(a)] == Leaf(maps[i].pbase + (a - maps[i].vbase), maps[i].perms, maps[i].mem)
    ensures forall a :: PageAligned(a) && PageOf(a) in flat ==>
              exists i :: 0 <= i < |maps| && used[i] && InRange(a, maps[i].vbase, maps[i].len)
  {
    hide PageOf;
    forall i, a | 0 <= i < |maps| && used[i] && PageAligned(a) && InRange(a, maps[i].vbase, maps[i].len)
      ensures PageOf(a) in flat
      ensures flat[PageOf(a)] == Leaf(maps[i].pbase + (a - maps[i].vbase), maps[i].perms, maps[i].mem)
    {
      assert PageAgrees(maps, used, flat, a) && Hit(maps, used, CoversVirt(a), i);
    }
    forall a | PageAligned(a) && PageOf(a) in flat
      ensures exists i :: 0 <= i < |maps| && used[i] && InRange(a, maps[i].vbase, maps[i].len)
    {
      assert PageAgrees(maps, used, flat, a);
      var i :| 0 <= i < |maps| && Hit(maps, used, CoversVirt(a), i);
    }
  }

  /** The physical address that the processor reaches through the tables. */
  ghost function Hardware(flat: imap<Page, Leaf>, vaddr: int): Option<int>
  {
    if PageOf(vaddr) in flat then Some(flat[PageOf(vaddr)].addr + vaddr % PAGE_SIZE) else None
  }

  /** Under agreement, the walk of every non-zero address equals `virt_to_phys`. */
  lemma WalkIsVirtToPhys(maps: seq<AddrMapping>, used: seq<bool>, flat: imap<Page, Leaf>, vaddr: int)
    requires |maps| == |used| && VirtDisjoint(maps, used) && Agree(maps, used, flat)
    requires CanonicalAddr(vaddr) && vaddr != 0
    ensures VirtToPhys(maps, used, vaddr) ==
              match Hardware(flat, vaddr) case Some(p) => Ok(p) case None => Err(EINVAL)
  {
    hide PageOf, VirtToPhys, VirtDisjoint;
    var a := vaddr - vaddr % PAGE_SIZE;
    PageOfStart(vaddr);
    StartIsAligned(vaddr);
    assert PageAgrees(maps, used, flat, a);
    hide Agree;
    SamePageSameHits(maps, used, vaddr);
    if PageOf(a) in flat {
      var i :| 0 <= i < |maps| && Hit(maps, used, CoversVirt(a), i);
      VirtToPhysIsUnique(maps, used, vaddr, i);
    } else {
      VirtToPhysIsPartial(maps, used, vaddr);
    }
  }

  lemma StartIsAligned(vaddr: int)
    requires CanonicalAddr(vaddr)
    ensures PageAligned(vaddr - vaddr % PAGE_SIZE)
  {
  }

  lemma SamePageSameHits(maps: seq<AddrMapping>, used: seq<bool>, vaddr: int)
    requires |maps| == |used|
    requires forall i :: 0 <= i < |maps| && used[i] ==> Regular(maps[i])
    ensures forall i :: 0 <= i < |maps| ==>
              (Hit(maps, used, CoversVirt(vaddr), i) <==> Hit(maps, used, CoversVirt(vaddr - vaddr % PAGE_SIZE), i))
  {
    forall i | 0 <= i < |maps| && used[i]
      ensures InRange(vaddr, maps[i].vbase, maps[i].len) <==>
              InRange(vaddr - vaddr % PAGE_SIZE, maps[i].vbase, maps[i].len)
    {
      SameSidePage(vaddr, maps[i].vbase, maps[i].len);
    }
  }

  lemma SameSidePage(v: int, base: int, len: int)
    requires base % PAGE_SIZE == 0 && len % PAGE_SIZE == 0
    ensures InRange(v, base, len) <==> InRange(v - v % PAGE_SIZE, base, len)
  {
  }

  function AddrAt(vbase: int, k: nat): int { vbase + PAGE_SIZE * k }

  function PageAt(vbase: int, k: nat): Page { PageOf(AddrAt(vbase, k)) }

  /** `flat` is `flat0` with the first `n` pages of region `m` mapped. */
  ghost predicate PageAdded(flat0: imap<Page, Leaf>, flat: imap<Page, Leaf>, m: AddrMapping, n: nat, a: int)
  {
    if InRange(a, m.vbase, PAGE_SIZE * n) then
      PageOf(a) in flat && flat[PageOf(a)] == LeafFor(m, a)
    else
      (PageOf(a) in flat <==> PageOf(a) in flat0) && (PageOf(a) in flat ==> flat[PageOf(a)] == flat0[PageOf(a)])
  }

  ghost predicate RegionAdded(flat0: imap<Page, Leaf>, flat: imap<Page, Leaf>, m: AddrMapping, n: nat)
  {
    forall a {:trigger PageAdded(flat0, flat, m, n, a)} :: PageAligned(a) ==> PageAdded(flat0, flat, m, n, a)
  }

  /** The pages that were added have the frames, the permissions and the memory type of the region; no
      other page has changed. */
  lemma AddedPages(flat0: imap<Page, Leaf>, flat: imap<Page, Leaf>, m: AddrMapping, n: nat)
    requires RegionAdded(flat0, flat, m, n)
    ensures forall a :: PageAligned(a) && InRange(a, m.vbase, PAGE_SIZE * n) ==>
              PageOf(a) in flat && flat[PageOf(a)] == Leaf(m.pbase + (a - m.vbase), m.perms, m.mem)
    ensures forall a :: PageAligned(a) && !InRange(a, m.vbase, PAGE_SIZE * n) ==>
              && (PageOf(a) in flat <==> PageOf(a) in flat0)
              && (PageOf(a) in flat ==> flat[PageOf(a)] == flat0[PageOf(a)])
  {
    hide PageOf;
    forall a | PageAligned(a)
      ensures InRange(a, m.vbase, PAGE_SIZE * n) ==>
                PageOf(a) in flat && flat[PageOf(a)] == Leaf(m.pbase + (a - m.vbase), m.perms, m.mem)
      ensures !InRange(a, m.vbase, PAGE_SIZE * n) ==>
                && (PageOf(a) in flat <==> PageOf(a) in flat0)
                && (PageOf(a) in flat ==> flat[PageOf(a)] == flat0[PageOf(a)])
    {
      assert PageAdded(flat0, flat, m, n, a);
    }
  }

  /** `flat` is `flat0` without the first `n` pages of region `m`. */
  ghost predicate PageDropped(flat0: imap<Page, Leaf>, flat: imap<Page, Leaf>, m: AddrMapping, n: nat, a: int)
  {
    && (PageOf(a) in flat <==> PageOf(a) in flat0 && !InRange(a, m.vbase, PAGE_SIZE * n))
    && (PageOf(a) in flat ==> flat[PageOf(a)] == flat0[PageOf(a)])
  }

  ghost predicate RegionDropped(flat0: imap<Page, Leaf>, flat: imap<Page, Leaf>, m: AddrMapping, n: nat)
  {
    forall a {:trigger PageDropped(flat0, flat, m, n, a)} :: PageAligned(a) ==> PageDropped(flat0, flat, m, n, a)
  }

  lemma DroppedPages(flat0: imap<Page, Leaf>, flat: imap<Page, Leaf>, m: AddrMapping, n: nat)
    requires RegionDropped(flat0, flat, m, n)
    ensures forall a :: PageAligned(a) ==>
              && (PageOf(a) in flat <==> PageOf(a) in flat0 && !InRange(a, m.vbase, PAGE_SIZE * n))
              && (PageOf(a) in flat ==> flat[PageOf(a)] == flat0[PageOf(a)])
  {
    hide PageOf;
    forall a | PageAligned(a)
      ensures PageOf(a) in flat <==> PageOf(a) in flat0 && !InRange(a, m.vbase, PAGE_SIZE * n)
      ensures PageOf(a) in flat ==> flat[PageOf(a)] == flat0[PageOf(a)]
    {
      assert PageDropped(flat0, flat, m, n, a);
    }
  }

  lemma InRegion(m: AddrMapping, n: nat)
    requires Regular(m) && PAGE_SIZE * n < m.len
    ensures PageAligned(AddrAt(m.vbase, n))
  {
  }

  lemma AddOnePage(flat0: imap<Page, Leaf>, flat: imap<Page, Leaf>, m: AddrMapping, n: nat)
    requires Regular(m) && PAGE_SIZE * n < m.len
    requires RegionAdded(flat0, flat, m, n)
    ensures RegionAdded(flat0, flat[PageAt(m.vbase, n) := LeafFor(m, AddrAt(m.vbase, n))], m, n + 1)
  {
    forall a | PageAligned(a)
      ensures PageAdded(flat0, flat[PageAt(m.vbase, n) := LeafFor(m, AddrAt(m.vbase, n))], m, n + 1, a)
    {
      assert PageAdded(flat0, flat, m, n, a);
      InRegion(m, n);
      PagesAreDistinct(a, AddrAt(m.vbase, n));
      NextPage(a, m.vbase, n);
    }
  }

  lemma DropOnePage(flat0: imap<Page, Leaf>, flat: imap<Page, Leaf>, m: AddrMapping, n: nat)
    requires Regular(m) && PAGE_SIZE * n < m.len
    requires RegionDropped(flat0, flat, m, n)
    ensures RegionDropped(flat0, flat - {PageAt(m.vbase, n)}, m, n + 1)
  {
    forall a | PageAligned(a)
      ensures PageDropped(flat0, flat - {PageAt(m.vbase, n)}, m, n + 1, a)
    {
      assert PageDropped(flat0, flat, m, n, a);
      InRegion(m, n);
      PagesAreDistinct(a, AddrAt(m.vbase, n));
      NextPage(a, m.vbase, n);
    }
  }

  /** Registering a region and mapping all its pages keeps the agreement. */
  lemma AgreeAfterMap(maps: seq<AddrMapping>, used: seq<bool>, flat0: imap<Page, Leaf>, flat: imap<Page, Leaf>,
                      m: AddrMapping, slot: nat, n: nat)
    requires slot < |maps| == |used| && !used[slot] && Regular(m)
    requires forall i :: 0 <= i < |maps| ==> !Hit(maps, used, VirtClash(m), i)
    requires Agree(maps, used, flat0) && m.len == PAGE_SIZE * n && RegionAdded(flat0, flat, m, n)
    ensures Agree(maps[slot := m], used[slot := true], flat)
  {
    var maps', used' := maps[slot := m], used[slot := true];
    forall a | PageAligned(a)
      ensures PageAgrees(maps', used', flat, a)
    {
      assert PageAgrees(maps, used, flat0, a) && PageAdded(flat0, flat, m, n, a);
      forall i | 0 <= i < |maps| && i != slot
        ensures Hit(maps', used', CoversVirt(a), i) <==> Hit(maps, used, CoversVirt(a), i)
        ensures Hit(maps, used, CoversVirt(a), i) ==> !InRange(a, m.vbase, m.len)
      {
        assert !Hit(maps, used, VirtClash(m), i);
      }
      if InRange(a, m.vbase, m.len) {
        assert Hit(maps', used', CoversVirt(a), slot);
      } else if PageOf(a) in flat {
        var i :| 0 <= i < |maps| && Hit(maps, used, CoversVirt(a), i);
        assert Hit(maps', used', CoversVirt(a), i);
      }
    }
  }

  /** Unmapping all pages of a registered region and forgetting it keeps the agreement. */
  lemma AgreeAfterUnmap(maps: seq<AddrMapping>, used: seq<bool>, flat0: imap<Page, Leaf>, flat: imap<Page, Leaf>,
                        m: AddrMapping, slot: nat, n: nat)
    requires slot < |maps| == |used| && used[slot] && SameRegion(maps[slot], m)
    requires VirtDisjoint(maps, used) && Agree(maps, used, flat0) && m.len == PAGE_SIZE * n &&
        RegionDropped(flat0, flat, m, n)
    ensures Agree(maps, used[slot := false], flat)
  {
    var used' := used[slot := false];
    forall a | PageAligned(a)
      ensures PageAgrees(maps, used', flat, a)
    {
      assert PageAgrees(maps, used, flat0, a) && PageDropped(flat0, flat, m, n, a);
      forall i | 0 <= i < |maps| && i != slot
        ensures Hit(maps, used', CoversVirt(a), i) <==> Hit(maps, used, CoversVirt(a), i)
        ensures Hit(maps, used, CoversVirt(a), i) ==> !InRange(a, m.vbase, m.len)
      {
        assert InRange(a, m.vbase, m.len) && InRange(a, maps[i].vbase, maps[i].len) ==>
            VirtOverlap(maps[i], maps[slot]) && VirtOverlap(maps[slot], maps[i]);
      }
      if PageOf(a) in flat {
        var i :| 0 <= i < |maps| && Hit(maps, used, CoversVirt(a), i);
        assert i != slot;
        assert Hit(maps, used', CoversVirt(a), i);
      }
    }
  }

  /** A page that a region covers but that is not mapped refutes the agreement. */
  lemma Disagree(maps: seq<AddrMapping>, used: seq<bool>, flat: imap<Page, Leaf>, a: int, i: nat)
    requires i < |maps| == |used| && PageAligned(a)
    requires Hit(maps, used, CoversVirt(a), i) && PageOf(a) !in flat
    ensures !Agree(maps, used, flat)
  {
    assert !PageAgrees(maps, used, flat, a);
  }

  // ----- Tables needed -------------------------------------------------------------------------

  /** The tables below the root on the paths of `n` pages from `vbase` on. */
  ghost function NodesOf(vbase: int, n: nat): set<Node>
  {
    if n == 0 then {} else NodesOf(vbase, n - 1) + Path(PageAt(vbase, n - 1))
  }

  lemma {:induction false} NodesOfMonotone(vbase: int, k: nat, n: nat)
    requires k <= n
    ensures NodesOf(vbase, k) <= NodesOf(vbase, n)
  {
    if k < n {
      NodesOfMonotone(vbase, k, n - 1);
    }
  }

  // ----- Mapping and unmapping regions ---------------------------------------------------------

  ghost predicate Agrees(pg: Paging)
    requires pg.addrs.Valid()
    reads pg, pg.pool.blocks, pg.addrs.mappings, pg.addrs.used, pg.addrs
  {
    Agree(pg.addrs.mappings[..], pg.addrs.used[..], pg.Flat())
  }

  /** Registering `m` leaves the pool's memory with a single canonical region. */
  ghost predicate SparesPool(pg: Paging, m: AddrMapping)
    reads pg, pg.pool
  {
    m.kind == Alias ||
    !IntervalsOverlap(m.pbase, m.pbase + m.len, pg.pbase, pg.pbase + PAGE_SIZE * pg.pool.blocks.Length)
  }

  /** The tables that exist once the first `k` pages from `vbase` on are mapped. */
  ghost function Tables(k0: set<Node>, vbase: int, k: nat): set<Node>
  {
    k0 + NodesOf(vbase, k)
  }

  lemma TablesMonotone(k0: set<Node>, vbase: int, k: nat, n: nat)
    requires k <= n
    ensures |Tables(k0, vbase, k)| <= |Tables(k0, vbase, n)|
  {
    NodesOfMonotone(vbase, k, n);
    SubsetSize(Tables(k0, vbase, k), Tables(k0, vbase, n));
  }

  /** One more page adds the tables that are missing on its path. */
  lemma NextTables(tree: Tree, k0: set<Node>, vbase: int, k: nat)
    requires tree.Keys == Tables(k0, vbase, k)
    ensures Tables(k0, vbase, k + 1) == tree.Keys + Path(PageAt(vbase, k))
    ensures |Tables(k0, vbase, k + 1)| == |tree| + Missing(tree, PageAt(vbase, k))
  {
    hide PageAt, Missing, Path;
    NodesOfNext(vbase, k, {});
    PathAdds(tree, PageAt(vbase, k));
  }

  lemma PathAdds(tree: Tree, p: Page)
    ensures |tree.Keys + Path(p)| == |tree| + Missing(tree, p)
  {
    hide Path, Ancestor;
    PathSize(tree.Keys, p);
    assert |tree| == |tree.Keys|;
  }

  lemma PathSize(s: set<Node>, p: Page)
    ensures |s + Path(p)| == |s| + (if Ancestor(p, 3) in s then 0 else 1) + (if Ancestor(p, 2) in s then 0 else 1) +
                             (if Ancestor(p, 1) in s then 0 else 1)
  {
    var a3, a2, a1 := Ancestor(p, 3), Ancestor(p, 2), Ancestor(p, 1);
    assert s + Path(p) == s + {a3} + {a2} + {a1};
    AddOne(s, a3);
    AddOne(s + {a3}, a2);
    AddOne(s + {a3} + {a2}, a1);
  }

  lemma NodesOfNext(vbase: int, k: nat, e: set<Node>)
    ensures NodesOf(vbase, k + 1) == NodesOf(vbase, k) + Path(PageAt(vbase, k))
    ensures e - NodesOf(vbase, k + 1) == e - NodesOf(vbase, k) - Path(PageAt(vbase, k))
  {
  }

  lemma AddOne<T>(s: set<T>, x: T)
    ensures |s + {x}| == |s| + if x in s then 0 else 1
  {
    if x in s {
      assert s + {x} == s;
    }
  }

  /** Every block is either free or holds one table of the tree. */
  lemma BlocksCounted(pg: Paging)
    requires pg.TablesOk()
    ensures |pg.tree| + |pg.pool.list| == pg.pool.blocks.Length
  {
    hide Pages;
    forall n | n in pg.tree
      ensures pg.tree[n] < pg.pool.blocks.Length
    {
      assert NodeOk(pg.Mem(), pg.tree, n);
    }
    FreeCount(pg.tree, pg.pool.list, pg.pool.blocks.Length);
  }

  lemma SubsetSize<T>(a: set<T>, b: set<T>)
    requires a <= b
    ensures |a| <= |b|
  {
    assert b == a + (b - a);
  }

  lemma FreeCount(tree: Tree, list: seq<nat>, n: nat)
    requires Partition(tree, list, n)
    requires forall a, b {:trigger tree[a], tree[b]} :: a in tree && b in tree && tree[a] == tree[b] ==> a == b
    requires forall a :: a in tree ==> tree[a] < n
    requires forall i :: 0 <= i < |list| ==> list[i] < n
    requires forall i, j :: 0 <= i < j < |list| ==> list[i] != list[j]
    ensures |tree| + |list| == n
  {
    ListSize(list);
    ValuesSize(tree);
    RangeSize(n);
    assert Range(n) == Elements(list) + tree.Values && Elements(list) !! tree.Values;
  }

  function Elements(list: seq<nat>): set<nat> { set b | b in list }

  function Range(n: nat): (r: set<nat>)
    ensures forall b: nat :: b in r <==> b < n
  {
    if n == 0 then {} else Range(n - 1) + {n - 1}
  }

  lemma {:induction false} ListSize(list: seq<nat>)
    requires forall i, j :: 0 <= i < j < |list| ==> list[i] != list[j]
    ensures |Elements(list)| == |list|
  {
    if list != [] {
      var l := |list| - 1;
      ListSize(list[..l]);
      assert Elements(list) == Elements(list[..l]) + {list[l]};
    }
  }

  lemma {:induction false} ValuesSize(tree: Tree)
    requires forall a, b {:trigger tree[a], tree[b]} :: a in tree && b in tree && tree[a] == tree[b] ==> a == b
    ensures |tree.Values| == |tree|
    decreases |tree|
  {
    if n :| n in tree {
      ValuesSize(tree - {n});
      OneValueLess(tree, n);
    } else {
      assert tree.Keys == {} && tree.Values == {};
    }
  }

  lemma OneValueLess(tree: Tree, n: Node)
    requires forall a, b {:trigger tree[a], tree[b]} :: a in tree && b in tree && tree[a] == tree[b] ==> a == b
    requires n in tree
    ensures |tree| == |tree - {n}| + 1 && |tree.Values| == |(tree - {n}).Values| + 1
  {
    var t := tree - {n};
    assert tree.Keys == t.Keys + {n};
    forall v
      ensures v in tree.Values <==> v in t.Values || v == tree[n]
      ensures tree[n] !in t.Values
    {
      if v in tree.Values && v != tree[n] {
        var m :| m in tree && tree[m] == v;
        assert m in t && t[m] == v;
      }
    }
    assert tree.Values == t.Values + {tree[n]};
  }

  lemma {:induction false} RangeSize(n: nat)
    ensures |Range(n)| == n
  {
    if n > 0 {
      RangeSize(n - 1);
      assert Range(n) == Range(n - 1) + {n - 1};
    }
  }

  /** What a failure at page `k` means for the tables: they sufficed for the pages before it and not
      for this one; with exactly one too few the code crashes; and a new table stays empty, exactly
      unless all tables were taken when the page's turn came. */
  ghost predicate RanOut(blocks: nat, empties: set<Node>, k0: set<Node>, vbase: int, k: nat, crashed: bool)
  {
    && |Tables(k0, vbase, k)| <= blocks < |Tables(k0, vbase, k + 1)|
    && (crashed <==> |Tables(k0, vbase, k + 1)| == blocks + 1)
    && (empties <= Tables(k0, vbase, k) <==> |Tables(k0, vbase, k)| == blocks)
  }

  /** The loop of `paging_map_region` (also used twice by `paging_init`): map the pages of `m` until
      one of them fails. `n` is the number of its pages, `k` the number of pages mapped. */
  method MapPages(pg: Paging, m: AddrMapping, ghost n: nat) returns (r: Result<()>, ghost k: nat)
    requires pg.Valid() && Regular(m) && m.len == PAGE_SIZE * n
    modifies pg.pool, pg.pool.blocks, pg`tree
    ensures pg.TablesOk()
    ensures k <= n && RegionAdded(old(pg.Flat()), pg.Flat(), m, k)
    ensures forall a :: PageAligned(a) && InRange(a, m.vbase, PAGE_SIZE * k) ==>
              PageOf(a) in pg.Flat() && pg.Flat()[PageOf(a)] == Leaf(m.pbase + (a - m.vbase), m.perms, m.mem)
    ensures r.Ok? <==> k == n
    ensures r.Err? ==> r.code == ENOMEM
    ensures r.Ok? ==> pg.Empties() == old(pg.Empties()) - NodesOf(m.vbase, n)
    ensures r.Ok? ==> pg.tree.Keys == Tables(old(pg.tree.Keys), m.vbase, n)
    ensures r.Ok? <==> |Tables(old(pg.tree.Keys), m.vbase, n)| <= pg.pool.blocks.Length
    ensures !r.Ok? ==> RanOut(pg.pool.blocks.Length, pg.Empties(), old(pg.tree.Keys), m.vbase, k, r.Crashed?)
  {
    hide PageOf, Pages, EmptyNodes, Missing, Shape, Partition, RegionAdded, NodesOf, Tables, FreeList, HomeOk,
         VirtDisjoint, RanOut;
    ghost var flat0, k0, e0 := pg.Flat(), pg.tree.Keys, pg.Empties();
    StartRegion(flat0, m, k0, e0);
    var offset := 0;
    k := 0;
    while offset < m.len
      invariant k <= n && offset == PAGE_SIZE * k
      invariant pg.Valid()
      invariant RegionAdded(flat0, pg.Flat(), m, k)
      invariant pg.Empties() == e0 - NodesOf(m.vbase, k)
      invariant pg.tree.Keys == Tables(k0, m.vbase, k)
    {
      r := MapPage(pg, m, offset, k, n, flat0, k0, e0);
      if !r.Ok? {
        AddedPages(flat0, pg.Flat(), m, k);
        TooFew(pg.pool.blocks.Length, pg.Empties(), k0, m.vbase, k, n, r.Crashed?);
        return;
      }
      offset := offset + PAGE_SIZE;
      k := k + 1;
    }
    BlocksCounted(pg);
    assert |pg.tree| == |pg.tree.Keys|;
    AddedPages(flat0, pg.Flat(), m, k);
    r := Ok(());
  }

  lemma TooFew(blocks: nat, empties: set<Node>, k0: set<Node>, vbase: int, k: nat, n: nat, crashed: bool)
    requires k < n && RanOut(blocks, empties, k0, vbase, k, crashed)
    ensures |Tables(k0, vbase, n)| > blocks
  {
    TablesMonotone(k0, vbase, k + 1, n);
  }

  lemma StartRegion(flat: imap<Page, Leaf>, m: AddrMapping, keys: set<Node>, empties: set<Node>)
    ensures RegionAdded(flat, flat, m, 0) && RegionDropped(flat, flat, m, 0)
    ensures keys == Tables(keys, m.vbase, 0) && empties == empties - NodesOf(m.vbase, 0)
  {
  }

  method MapPage(pg: Paging, m: AddrMapping, offset: int, ghost k: nat, ghost n: nat, ghost flat0: imap<Page, Leaf>,
                 ghost k0: set<Node>, ghost e0: set<Node>) returns (r: Result<()>)
    requires pg.Valid() && Regular(m) && m.len == PAGE_SIZE * n && offset == PAGE_SIZE * k && k < n
    requires RegionAdded(flat0, pg.Flat(), m, k)
    requires pg.tree.Keys == Tables(k0, m.vbase, k) && pg.Empties() == e0 - NodesOf(m.vbase, k)
    modifies pg.pool, pg.pool.blocks, pg`tree
    ensures pg.TablesOk()
    ensures r.Err? ==> r.code == ENOMEM
    ensures !r.Ok? ==>
              && pg.Flat() == old(pg.Flat())
              && RanOut(pg.pool.blocks.Length, pg.Empties(), k0, m.vbase, k, r.Crashed?)
    ensures r.Ok? ==>
              && RegionAdded(flat0, pg.Flat(), m, k + 1)
              && pg.Empties() == e0 - NodesOf(m.vbase, k + 1)
              && pg.tree.Keys == Tables(k0, m.vbase, k + 1)
  {
    hide PageOf, Pages, EmptyNodes, Missing, Shape, Partition, RegionAdded, Tables, NodesOf, Path, FreeList, HomeOk,
         VirtDisjoint, RanOut;
    ghost var flat, tree, free, p := pg.Flat(), pg.tree, |pg.pool.list|, PageAt(m.vbase, k);
    assert p == PageOf(m.vbase + offset);
    FrameAligned(m, k);
    BlocksCounted(pg);
    NextTables(tree, k0, m.vbase, k);
    r := pg.PtMap(m.vbase + offset, m.pbase + offset, m.perms, m.mem);
    if r.Ok? {
      AddOnePage(flat0, flat, m, k);
      NodesOfNext(m.vbase, k, e0);
    } else {
      StopsHere(tree, free, pg.pool.blocks.Length, pg.Empties(), k0, m.vbase, k, r.Crashed?);
    }
  }

  lemma StopsHere(tree: Tree, free: nat, blocks: nat, empties: set<Node>, k0: set<Node>, vbase: int, k: nat,
                  crashed: bool)
    requires tree.Keys == Tables(k0, vbase, k) && |tree| + free == blocks
    requires Missing(tree, PageAt(vbase, k)) > free
    requires crashed <==> Missing(tree, PageAt(vbase, k)) == free + 1
    requires empties <= tree.Keys <==> free == 0
    ensures RanOut(blocks, empties, k0, vbase, k, crashed)
  {
    hide Missing, PageAt, Tables;
    NextTables(tree, k0, vbase, k);
    assert |tree| == |tree.Keys|;
  }

  lemma FrameAligned(m: AddrMapping, k: nat)
    requires Regular(m)
    ensures (m.pbase + PAGE_SIZE * k) % PAGE_SIZE == 0
  {
  }

  /** The loop of `paging_unmap_region`. `n` is the number of pages, `k` the number of pages unmapped. */
  method UnmapPages(pg: Paging, m: AddrMapping, ghost n: nat) returns (r: Result<()>, ghost k: nat)
    requires pg.Valid() && Regular(m) && m.len == PAGE_SIZE * n
    modifies pg.pool, pg.pool.blocks, pg`tree
    ensures pg.TablesOk()
    ensures k <= n && RegionDropped(old(pg.Flat()), pg.Flat(), m, k)
    ensures r.Ok? <==> k == n
    ensures !r.Ok? ==> r == Err(EINVAL) && PageAt(m.vbase, k) !in pg.Flat()
    ensures k > 0 ==> PageAt(m.vbase, 0) in old(pg.Flat())
    ensures pg.Empties() == old(pg.Empties())
  {
    hide PageOf, Pages, EmptyNodes, Shape, Partition, RegionDropped, FreeList, HomeOk, VirtDisjoint;
    ghost var flat0 := pg.Flat();
    StartRegion(flat0, m, {}, {});
    var offset := 0;
    k := 0;
    while offset < m.len
      invariant k <= n && offset == PAGE_SIZE * k
      invariant pg.Valid()
      invariant RegionDropped(flat0, pg.Flat(), m, k)
      invariant pg.Empties() == old(pg.Empties())
      invariant if k == 0 then pg.Flat() == flat0 else PageAt(m.vbase, 0) in flat0
    {
      ghost var flat := pg.Flat();
      assert AddrAt(m.vbase, k) == m.vbase + offset;
      r := pg.PtUnmap(m.vbase + offset);
      if !r.Ok? {
        return;
      }
      DropOnePage(flat0, flat, m, k);
      offset := offset + PAGE_SIZE;
      k := k + 1;
    }
    r := Ok(());
  }

  /** The loop with which `paging_map_region` undoes a failure. Pages that are not mapped are skipped. */
  method UndoPages(pg: Paging, m: AddrMapping, ghost n: nat)
    requires pg.Valid() && Regular(m) && m.len == PAGE_SIZE * n
    modifies pg.pool, pg.pool.blocks, pg`tree
    ensures pg.TablesOk()
    ensures RegionDropped(old(pg.Flat()), pg.Flat(), m, n)
    ensures pg.Empties() == old(pg.Empties())
  {
    hide PageOf, Pages, EmptyNodes, Shape, Partition, RegionDropped, FreeList, HomeOk, VirtDisjoint;
    ghost var flat0, k: nat := pg.Flat(), 0;
    StartRegion(flat0, m, {}, {});
    var offset := 0;
    while offset < m.len
      invariant k <= n && offset == PAGE_SIZE * k
      invariant pg.Valid()
      invariant RegionDropped(flat0, pg.Flat(), m, k)
      invariant pg.Empties() == old(pg.Empties())
    {
      ghost var flat := pg.Flat();
      assert AddrAt(m.vbase, k) == m.vbase + offset;
      var _ := pg.PtUnmap(m.vbase + offset);
      assert pg.Flat() == flat - {PageAt(m.vbase, k)};
      DropOnePage(flat0, flat, m, k);
      offset := offset + PAGE_SIZE;
      k := k + 1;
    }
  }

  /** Region `m` has been put in the free slot `slot`. */
  ghost predicate Registered(maps: seq<AddrMapping>, used: seq<bool>, maps': seq<AddrMapping>, used': seq<bool>,
                             m: AddrMapping, slot: int)
    requires |maps| == |used|
  {
    0 <= slot < |maps| && !used[slot] && maps' == maps[slot := m] && used' == used[slot := true]
  }

  /** `paging_map_region`. It succeeds exactly if the region is admitted and its tables fit the pool.
      An admitted region whose pages cannot all be mapped stays registered (lines 442 to 447): then, and
      only then, the two descriptions of the address space part. The undo unmaps the pages before
      page `k`, but not a table that the failing page has added. */
  method MapRegion(pg: Paging, m: AddrMapping) returns (r: Result<()>, ghost k: nat)
    requires pg.Valid() && Agrees(pg)
    requires Regular(m) && SparesPool(pg, m)
    modifies pg.pool, pg.pool.blocks, pg`tree, pg.addrs.mappings, pg.addrs.used
    ensures pg.Valid()
    ensures r.Ok? <==>
              && old(Admits(pg.addrs.mappings[..], pg.addrs.used[..], m))
              && |Tables(old(pg.tree.Keys), m.vbase, m.len / PAGE_SIZE)| <= pg.pool.blocks.Length
    ensures Agrees(pg) <==>
              || |Tables(old(pg.tree.Keys), m.vbase, m.len / PAGE_SIZE)| <= pg.pool.blocks.Length
              || !old(Admits(pg.addrs.mappings[..], pg.addrs.used[..], m))
    ensures !old(Admits(pg.addrs.mappings[..], pg.addrs.used[..], m)) ==>
              && r == Err(if old(Compatible(pg.addrs.mappings[..], pg.addrs.used[..], m)) then ENOMEM else EINVAL)
              && pg.Flat() == old(pg.Flat()) && pg.Empties() == old(pg.Empties()) && pg.tree == old(pg.tree)
              && pg.addrs.mappings[..] == old(pg.addrs.mappings[..]) && pg.addrs.used[..] == old(pg.addrs.used[..])
    ensures old(Admits(pg.addrs.mappings[..], pg.addrs.used[..], m)) ==>
              exists slot :: Registered(old(pg.addrs.mappings[..]), old(pg.addrs.used[..]),
                                        pg.addrs.mappings[..], pg.addrs.used[..], m, slot)
    ensures r.Ok? ==> RegionAdded(old(pg.Flat()), pg.Flat(), m, m.len / PAGE_SIZE)
    ensures r.Ok? ==> forall a :: PageAligned(a) && InRange(a, m.vbase, m.len) ==>
              PageOf(a) in pg.Flat() && pg.Flat()[PageOf(a)] == Leaf(m.pbase + (a - m.vbase), m.perms, m.mem)
    ensures r.Ok? ==> forall a :: PageAligned(a) && !InRange(a, m.vbase, m.len) ==>
              && (PageOf(a) in pg.Flat() <==> PageOf(a) in old(pg.Flat()))
              && (PageOf(a) in pg.Flat() ==> pg.Flat()[PageOf(a)] == old(pg.Flat())[PageOf(a)])
    ensures r.Ok? ==> pg.tree.Keys == Tables(old(pg.tree.Keys), m.vbase, m.len / PAGE_SIZE)
    ensures r.Ok? ==> pg.Empties() == old(pg.Empties()) - NodesOf(m.vbase, m.len / PAGE_SIZE)
    ensures !r.Ok? && old(Admits(pg.addrs.mappings[..], pg.addrs.used[..], m)) ==>
              && PAGE_SIZE * k < m.len
              && RanOut(pg.pool.blocks.Length, pg.Empties(), old(pg.tree.Keys), m.vbase, k, r.Crashed?)
              && (r.Err? ==> r.code == ENOMEM && RegionDropped(old(pg.Flat()), pg.Flat(), m, m.len / PAGE_SIZE))
  {
    hide PageOf, Pages, EmptyNodes, Shape, Partition, RegionAdded, RegionDropped, Admits, NodesOf, Tables, FreeList,
         RanOut;
    ghost var maps, used, flat0, n := pg.addrs.mappings[..], pg.addrs.used[..], pg.Flat(), m.len / PAGE_SIZE;
    k := 0;
    var res, slot := pg.addrs.Add(m);
    if !res.Ok? {
      return res, 0;
    }
    assert Registered(maps, used, pg.addrs.mappings[..], pg.addrs.used[..], m, slot);
    AdmittedIsDisjoint(maps, used, m);
    HomeKept(pg, maps, used, m, slot);
    r, k := MapPages(pg, m, n);
    if r.Ok? {
      AddedPages(flat0, pg.Flat(), m, n);
      AgreeAfterMap(maps, used, flat0, pg.Flat(), m, slot, n);
    } else if r.Crashed? {
      NotYetMapped(maps, used, flat0, pg.Flat(), m, n, k);
      Disagree(pg.addrs.mappings[..], pg.addrs.used[..], pg.Flat(), AddrAt(m.vbase, k), slot);
    } else {
      ghost var flat := pg.Flat();
      UndoPages(pg, m, n);
      AddedAndDropped(flat0, flat, pg.Flat(), m, n, k);
      DropCovers(flat, pg.Flat(), m, n);
      Disagree(pg.addrs.mappings[..], pg.addrs.used[..], pg.Flat(), m.vbase, slot);
    }
  }

  /** Unmapping all pages of a region after mapping some of them is like only unmapping them. */
  lemma AddedAndDropped(flat0: imap<Page, Leaf>, flat1: imap<Page, Leaf>, flat2: imap<Page, Leaf>,
                        m: AddrMapping, n: nat, k: nat)
    requires k <= n && RegionAdded(flat0, flat1, m, k) && RegionDropped(flat1, flat2, m, n)
    ensures RegionDropped(flat0, flat2, m, n)
  {
    forall a | PageAligned(a)
      ensures PageDropped(flat0, flat2, m, n, a)
    {
      assert PageAdded(flat0, flat1, m, k, a) && PageDropped(flat1, flat2, m, n, a);
    }
  }

  lemma AdmittedIsDisjoint(maps: seq<AddrMapping>, used: seq<bool>, m: AddrMapping)
    requires |maps| == |used| && Admits(maps, used, m)
    ensures forall i :: 0 <= i < |maps| ==> !Hit(maps, used, VirtClash(m), i)
  {
  }

  lemma HomeKept(pg: Paging, maps: seq<AddrMapping>, used: seq<bool>, m: AddrMapping, slot: nat)
    requires |maps| == |used| && slot < |maps| && !used[slot]
    requires HomeOk(maps, used, pg.home, pg.vbase, pg.pbase, PAGE_SIZE * pg.pool.blocks.Length)
    requires SparesPool(pg, m)
    ensures HomeOk(maps[slot := m], used[slot := true], pg.home, pg.vbase, pg.pbase, PAGE_SIZE * pg.pool.blocks.Length)
  {
  }

  lemma DropCovers(flat0: imap<Page, Leaf>, flat: imap<Page, Leaf>, m: AddrMapping, n: nat)
    requires Regular(m) && m.len == PAGE_SIZE * n && n > 0
    requires RegionDropped(flat0, flat, m, n)
    ensures PageAligned(m.vbase) && PageOf(m.vbase) !in flat && InRange(m.vbase, m.vbase, m.len)
  {
    assert PageDropped(flat0, flat, m, n, m.vbase);
  }

  lemma NotYetMapped(maps: seq<AddrMapping>, used: seq<bool>, flat0: imap<Page, Leaf>, flat: imap<Page, Leaf>,
                     m: AddrMapping, n: nat, k: nat)
    requires |maps| == |used| && Agree(maps, used, flat0)
    requires forall i :: 0 <= i < |maps| ==> !Hit(maps, used, VirtClash(m), i)
    requires Regular(m) && m.len == PAGE_SIZE * n && k < n && RegionAdded(flat0, flat, m, k)
    ensures PageAligned(AddrAt(m.vbase, k)) && InRange(AddrAt(m.vbase, k), m.vbase, m.len)
    ensures PageAt(m.vbase, k) !in flat
  {
    var a := AddrAt(m.vbase, k);
    InRegion(m, k);
    assert PageAdded(flat0, flat, m, k, a) && PageAgrees(maps, used, flat0, a);
    assert forall i :: 0 <= i < |maps| && Hit(maps, used, CoversVirt(a), i) ==> Hit(maps, used, VirtClash(m), i);
  }

  /** `paging_unmap_region`. It succeeds exactly on a registered region. Called with anything else it
      fails, and does damage exactly if the first page of the range was mapped. */
  method UnmapRegion(pg: Paging, m: AddrMapping) returns (r: Result<()>)
    requires pg.Valid() && Agrees(pg)
    requires Regular(m) && !VirtOverlap(m, pg.addrs.mappings[pg.home])
    modifies pg.pool, pg.pool.blocks, pg`tree, pg.addrs.used
    ensures pg.Valid()
    ensures r.Ok? <==>
              exists i :: 0 <= i < NUM_ADDR_MAPPINGS && old(pg.addrs.used[i]) && SameRegion(pg.addrs.mappings[i], m)
    ensures r.Ok? ==> RegionDropped(old(pg.Flat()), pg.Flat(), m, m.len / PAGE_SIZE)
    ensures r.Ok? ==> forall a :: PageAligned(a) ==>
              && (PageOf(a) in pg.Flat() <==> PageOf(a) in old(pg.Flat()) && !InRange(a, m.vbase, m.len))
              && (PageOf(a) in pg.Flat() ==> pg.Flat()[PageOf(a)] == old(pg.Flat())[PageOf(a)])
    ensures r.Ok? ==> exists slot :: 0 <= slot < NUM_ADDR_MAPPINGS && SameRegion(pg.addrs.mappings[slot], m) &&
                                     pg.addrs.used[..] == old(pg.addrs.used[..])[slot := false]
    ensures !r.Ok? ==> r == Err(EINVAL) && pg.addrs.used[..] == old(pg.addrs.used[..])
    ensures pg.Empties() == old(pg.Empties())
    ensures Agrees(pg) <==> r.Ok? || m.len == 0 || PageOf(m.vbase) !in old(pg.Flat())
  {
    hide PageOf, Pages, EmptyNodes, Shape, Partition, RegionDropped, FreeList;
    ghost var maps, used, flat0, n := pg.addrs.mappings[..], pg.addrs.used[..], pg.Flat(), m.len / PAGE_SIZE;
    assert AddrAt(m.vbase, 0) == m.vbase;
    ghost var k;
    r, k := UnmapPages(pg, m, n);
    if !r.Ok? {
      StoppedEarly(maps, used, flat0, pg.Flat(), m, n, k);
      DroppedPrefix(maps, used, flat0, pg.Flat(), m, n, k);
      return;
    }
    var slot;
    r, slot := pg.addrs.Remove(m);
    if r.Ok? {
      assert used[slot] && maps[slot] == pg.addrs.mappings[slot];
      PoolNotEmpty(pg);
      HomeSurvives(pg, maps, used, m, slot, flat0);
      AgreeAfterUnmap(maps, used, flat0, pg.Flat(), m, slot, n);
      DroppedPages(flat0, pg.Flat(), m, n);
    } else {
      DroppedPrefix(maps, used, flat0, pg.Flat(), m, n, n);
    }
  }

  lemma PoolNotEmpty(pg: Paging)
    requires pg.TablesOk()
    ensures pg.pool.blocks.Length > 0
  {
    assert NodeOk(pg.Mem(), pg.tree, Pml4);
  }

  lemma HomeSurvives(pg: Paging, maps: seq<AddrMapping>, used: seq<bool>, m: AddrMapping, slot: nat, flat: imap<Page,
                     Leaf>)
    requires |maps| == |used| && slot < |maps| && pg.pool.blocks.Length > 0
    requires HomeOk(maps, used, pg.home, pg.vbase, pg.pbase, PAGE_SIZE * pg.pool.blocks.Length)
    requires SameRegion(maps[slot], m) && !VirtOverlap(m, maps[pg.home])
    ensures HomeOk(maps, used[slot := false], pg.home, pg.vbase, pg.pbase, PAGE_SIZE * pg.pool.blocks.Length)
  {
    assert slot == pg.home ==> VirtOverlap(m, maps[slot]);
  }

  /** A page of a registered region is mapped; so unmapping stops early only on other ranges. */
  lemma StoppedEarly(maps: seq<AddrMapping>, used: seq<bool>, flat0: imap<Page, Leaf>, flat: imap<Page, Leaf>,
                     m: AddrMapping, n: nat, k: nat)
    requires |maps| == |used| && Agree(maps, used, flat0)
    requires Regular(m) && m.len == PAGE_SIZE * n && k < n && RegionDropped(flat0, flat, m, k)
    requires PageAt(m.vbase, k) !in flat
    ensures PageAt(m.vbase, k) !in flat0
    ensures forall i :: 0 <= i < |maps| && used[i] ==> !SameRegion(maps[i], m)
  {
    var a := AddrAt(m.vbase, k);
    InRegion(m, k);
    assert PageDropped(flat0, flat, m, k, a) && PageAgrees(maps, used, flat0, a);
    forall i | 0 <= i < |maps| && used[i]
      ensures !SameRegion(maps[i], m)
    {
      assert Hit(maps, used, CoversVirt(a), i) <==> InRange(a, maps[i].vbase, maps[i].len);
    }
  }

  /** Dropping pages without forgetting a region keeps the agreement exactly if no page is dropped,
      which shows at the first page: pages are dropped in order and all were mapped. */
  lemma DroppedPrefix(maps: seq<AddrMapping>, used: seq<bool>, flat0: imap<Page, Leaf>, flat: imap<Page, Leaf>,
                      m: AddrMapping, n: nat, k: nat)
    requires |maps| == |used| && Agree(maps, used, flat0)
    requires Regular(m) && m.len == PAGE_SIZE * n && k <= n && RegionDropped(flat0, flat, m, k)
    requires k > 0 ==> PageOf(m.vbase) in flat0
    ensures Agree(maps, used, flat) <==> k == 0
  {
    if k == 0 {
      forall a | PageAligned(a)
        ensures PageAgrees(maps, used, flat, a)
      {
        assert PageDropped(flat0, flat, m, k, a) && PageAgrees(maps, used, flat0, a);
      }
    } else {
      var a := m.vbase;
      assert PageDropped(flat0, flat, m, k, a) && PageAgrees(maps, used, flat0, a);
      var i :| 0 <= i < |maps| && Hit(maps, used, CoversVirt(a), i);
      Disagree(maps, used, flat, a, i);
    }
  }
}
