/** Exactly how many tables a range of pages takes, and what happens when src/paging.c runs out of them
    after it has set itself up with the memory regions of config.mk. */
module PagingLimits {
  import opened Arith
  import opened Common
  import opened Pools
  import opened AddrTables
  import opened PageTree
  import opened PageSteps
  import opened PagingModel
  import opened Regions
  import opened PagingInitModel

  // ----- Counting tables -----------------------------------------------------------------------

  /** Numbers of pages with canonical addresses. */
  predicate PageNumber(q: int) { -0x8_0000_0000 <= q < 0x8_0000_0000 }

  /** Numbers agree if their last digits and all others do. */
  lemma SameDigits(x: int, y: int)
    requires x % 512 == y % 512 && x / 512 == y / 512
    ensures x == y
  {
  }

  lemma SameTop(x: int, y: int)
    requires -256 <= x < 256 && -256 <= y < 256 && x % 512 == y % 512
    ensures x == y
  {
  }

  lemma TopRange(q: int)
    requires PageNumber(q)
    ensures -256 <= q / 0x800_0000 < 256
  {
  }

  /** Pages with the same table at `level` are in the same group. */
  lemma SameTableSameGroup(q: int, r: int, level: nat)
    requires PageNumber(q) && PageNumber(r) && 1 <= level <= 3
    requires Ancestor(PageOf(PAGE_SIZE * q), level) == Ancestor(PageOf(PAGE_SIZE * r), level)
    ensures q / Span(level + 1) == r / Span(level + 1)
  {
    forall l | level < l <= 4
      ensures q / Span(l) % 512 == r / Span(l) % 512
    {
      IndexOfPage(q, l);
      IndexOfPage(r, l);
    }
    TopRange(q);
    TopRange(r);
    SameTop(q / Span(4), r / Span(4));
    if level < 3 {
      DivDiv(q, Span(3), 512);
      DivDiv(r, Span(3), 512);
      SameDigits(q / Span(3), r / Span(3));
    }
    if level < 2 {
      DivDiv(q, Span(2), 512);
      DivDiv(r, Span(2), 512);
      SameDigits(q / Span(2), r / Span(2));
    }
  }

  lemma {:induction false} NodeOfPage(vbase: int, n: nat, a: Node) returns (k: nat)
    requires a in NodesOf(vbase, n)
    ensures k < n && a in Path(PageAt(vbase, k))
  {
    if a in Path(PageAt(vbase, n - 1)) {
      k := n - 1;
    } else {
      k := NodeOfPage(vbase, n - 1, a);
    }
  }

  lemma OnPath(p: Page, r: Page, level: nat)
    requires 1 <= level <= 3 && Ancestor(p, level) in Path(r)
    ensures Ancestor(p, level) == Ancestor(r, level)
  {
  }

  /** One more page needs a new table at `level` exactly if it starts a new group. */
  lemma OneMoreTableExactly(first: int, n: nat, level: nat)
    requires n > 0 && 1 <= level <= 3 && PageNumber(first) && PageNumber(first + n - 1)
    ensures var a := Ancestor(PageAt(PAGE_SIZE * first, n - 1), level);
            Groups(first, n, Span(level + 1)) ==
              Groups(first, n - 1, Span(level + 1)) + if a in NodesOf(PAGE_SIZE * first, n - 1) then 0 else 1
  {
    hide PageOf;
    var q, span := first + n - 1, Span(level + 1);
    var a := Ancestor(PageAt(PAGE_SIZE * first, n - 1), level);
    OneMoreTable(first, n, level);
    NextGroup(q, span);
    if a in NodesOf(PAGE_SIZE * first, n - 1) {
      var k := NodeOfPage(PAGE_SIZE * first, n - 1, a);
      OnPath(PageAt(PAGE_SIZE * first, n - 1), PageAt(PAGE_SIZE * first, k), level);
      assert AddrAt(PAGE_SIZE * first, n - 1) == PAGE_SIZE * q;
      assert AddrAt(PAGE_SIZE * first, k) == PAGE_SIZE * (first + k);
      SameTableSameGroup(q, first + k, level);
      DivOrder(first + k, q - 1, span);
    } else if n > 1 {
      DivOrder(q - 1, q, span);
    }
  }

  lemma DivOrder(x: int, y: int, d: nat)
    requires d > 0 && x <= y
    ensures x / d <= y / d
  {
    var a, u, b, v := x / d, x % d, y / d, y % d;
    assert x == d * a + u && y == d * b + v;
    assert d * (b - a) == (y - x) + (u - v);
    NotNegative(d, b - a);
  }

  lemma NotNegative(d: nat, e: int)
    requires d * e > 0 - d
    ensures e >= 0
  {
    if e <= -1 {
      MulMono(d, e, -1);
    }
  }

  /** The number of tables below the root for `n` pages, for any range of canonical addresses. */
  lemma {:induction false} TablesExactly(first: int, n: nat)
    requires n > 0 ==> PageNumber(first) && PageNumber(first + n - 1)
    ensures |NodesOf(PAGE_SIZE * first, n)| ==
              Groups(first, n, Span(2)) + Groups(first, n, Span(3)) + Groups(first, n, Span(4))
  {
    hide PageOf, PageAt, Path;
    if n > 0 {
      TablesExactly(first, n - 1);
      hide NodesOf, Groups;
      NodesOfNext(PAGE_SIZE * first, n - 1, {});
      OneMoreTableExactly(first, n, 1);
      OneMoreTableExactly(first, n, 2);
      OneMoreTableExactly(first, n, 3);
      PathSize(NodesOf(PAGE_SIZE * first, n - 1), PageAt(PAGE_SIZE * first, n - 1));
    }
  }

  /** A region of more than 512 pages for each block of the pool cannot be mapped, whatever tables there
      are already. So `paging_map_region` fails on it, and if it is admitted leaves it registered. */
  lemma TooLarge(k0: set<Node>, m: AddrMapping, blocks: nat)
    requires Regular(m) && m.len > PAGE_SIZE * 512 * blocks
    ensures |Tables(k0, m.vbase, m.len / PAGE_SIZE)| > blocks
  {
    hide NodesOf, Groups;
    var first, n := m.vbase / PAGE_SIZE, m.len / PAGE_SIZE;
    WholePages(m);
    PagesOfRegion(m);
    TablesExactly(first, n);
    SubsetSize(NodesOf(m.vbase, n), Tables(k0, m.vbase, n));
    ManyGroups(first, n, blocks);
  }

  lemma PagesOfRegion(m: AddrMapping)
    requires Regular(m) && m.len > 0
    ensures PageNumber(m.vbase / PAGE_SIZE) && PageNumber(m.vbase / PAGE_SIZE + m.len / PAGE_SIZE - 1)
  {
  }

  lemma ManyGroups(first: int, n: nat, blocks: nat)
    requires n > 512 * blocks
    ensures Groups(first, n, Span(2)) > blocks
    ensures Groups(first, n, Span(3)) >= 0 && Groups(first, n, Span(4)) >= 0
  {
  }

  // ----- The memory of config.mk ---------------------------------------------------------------

  const KERNEL_PERMS := Perms(true, false)

  /** KERN_BASE and KERN_DYN, as src/init.c passes them. */
  const CODE := AddrMapping(Canonical, WriteBack, KERNEL_PERMS, 0x8013_0000, 0x13_0000, 0xED_0000)
  const DYN := AddrMapping(Canonical, WriteBack, KERNEL_PERMS, 0x8100_0000, 0x100_0000, 0x3FE0_0000)

  const BOOT_PAGES: nat := 0x4_0CD0
  const BOOT_TABLES: nat := 1046 // Of which 523 are in use after `paging_init`.

  lemma ConfigIsBoot()
    ensures BootRegions(CODE, DYN) && Reservation(CODE.len + DYN.len) == BOOT_TABLES
    ensures Boot(CODE) == CODE && Boot(DYN) == DYN && (CODE.len + DYN.len) / PAGE_SIZE == BOOT_PAGES
  {
    hide Reservation;
    ConfigReservation();
  }

  lemma ConfigReservation()
    ensures Reservation(CODE.len + DYN.len) == BOOT_TABLES
  {
    hide AlignUp;
    Rounded(CODE.len + DYN.len, PAGE_SIZE, BOOT_PAGES);
    Rounded(BOOT_PAGES, NUM_PT_ENTRIES, 519);
    Rounded(519, NUM_PT_ENTRIES, 2);
    Rounded(2, NUM_PT_ENTRIES, 1);
    Rounded(1, NUM_PT_ENTRIES, 1);
  }

  lemma Rounded(v: int, a: nat, k: int)
    requires a > 0 && a * (k - 1) < v <= a * k
    ensures AlignUp(v, a) == k * a && AlignUp(v, a) / a == k
  {
    DivUnique(v + a - 1, a, k, v - 1 - a * (k - 1));
    DivUnique(k * a, a, k, 0);
  }

  /** `groups` times 512 pages at the second entry of the root, and one page at the third. */
  function Area(groups: nat): AddrMapping
  {
    AddrMapping(Canonical, WriteBack, KERNEL_PERMS, 0x80_0000_0000, 0x1_0000_0000, 0x20_0000 * groups)
  }

  const FAR := AddrMapping(Canonical, WriteBack, KERNEL_PERMS, 0x100_0000_0000, 0x20_0000_0000, 0x1000)

  function Top(n: Node): int
  {
    match n
    case Pml4 => -1
    case Pdpt(i4) => i4
    case Pd(i4, _) => i4
    case Pt(i4, _, _) => i4
  }

  /** The tables of pages below entry `i4` of the root are below it. */
  lemma {:induction false} NodesBelow(first: int, n: nat, i4: nat)
    requires i4 < 256 && 0x800_0000 * i4 <= first && first + n <= 0x800_0000 * (i4 + 1)
    ensures forall a :: a in NodesOf(PAGE_SIZE * first, n) ==> Top(a) == i4
  {
    hide PageOf, PageAt;
    if n > 0 {
      NodesBelow(first, n - 1, i4);
      PageBelow(first, n - 1, i4);
      NodesOfNext(PAGE_SIZE * first, n - 1, {});
    }
  }

  lemma PageBelow(first: int, k: nat, i4: nat)
    requires i4 < 256 && 0x800_0000 * i4 <= first && first + k < 0x800_0000 * (i4 + 1)
    ensures forall a :: a in Path(PageAt(PAGE_SIZE * first, k)) ==> Top(a) == i4
  {
    hide PageOf;
    assert AddrAt(PAGE_SIZE * first, k) == PAGE_SIZE * (first + k);
    TopIndex(first + k, i4);
  }

  lemma TopIndex(q: int, i4: nat)
    requires i4 < 256 && 0x800_0000 * i4 <= q < 0x800_0000 * (i4 + 1)
    ensures PageOf(PAGE_SIZE * q).i4 == i4
  {
    IndexOfPage(q, 4);
    assert q / 0x800_0000 == i4;
  }

  /** Tables for one more range, below an entry of the root that has none. */
  lemma TablesApart(k0: set<Node>, first: int, n: nat, i4: nat)
    requires i4 < 256 && 0x800_0000 * i4 <= first && first + n <= 0x800_0000 * (i4 + 1)
    requires forall a :: a in k0 ==> Top(a) != i4
    ensures |Tables(k0, PAGE_SIZE * first, n)| ==
              |k0| + Groups(first, n, Span(2)) + Groups(first, n, Span(3)) + Groups(first, n, Span(4))
    ensures forall a :: a in Tables(k0, PAGE_SIZE * first, n) ==> a in k0 || Top(a) == i4
  {
    hide NodesOf, Groups;
    NodesBelow(first, n, i4);
    TablesExactly(first, n);
    assert k0 !! NodesOf(PAGE_SIZE * first, n);
  }

  lemma BootTables()
    ensures var k0 := Tables({Pml4}, CODE.vbase, BOOT_PAGES);
            |k0| == 523 && forall a :: a in k0 ==> Top(a) <= 0
  {
    hide Tables;
    TablesApart({Pml4}, 0x8_0130, BOOT_PAGES, 0);
    assert |{Pml4}| == 1;
  }

  lemma AreaTables(groups: nat)
    requires 0 < groups <= 1024
    ensures var k1 := Tables(Tables({Pml4}, CODE.vbase, BOOT_PAGES), Area(groups).vbase, 512 * groups);
            |k1| == 523 + groups + (groups - 1) / 512 + 2 && forall a :: a in k1 ==> Top(a) <= 1
  {
    hide Tables;
    BootTables();
    TablesApart(Tables({Pml4}, CODE.vbase, BOOT_PAGES), 0x800_0000, 512 * groups, 1);
    AreaGroups(groups);
  }

  lemma AreaGroups(groups: nat)
    requires 0 < groups <= 1024
    ensures Groups(0x800_0000, 512 * groups, Span(2)) == groups
    ensures Groups(0x800_0000, 512 * groups, Span(3)) == (groups - 1) / 512 + 1
    ensures Groups(0x800_0000, 512 * groups, Span(4)) == 1
  {
  }

  lemma FarTables(k1: set<Node>)
    requires forall a :: a in k1 ==> Top(a) <= 1
    ensures |Tables(k1, FAR.vbase, 0)| == |k1| && |Tables(k1, FAR.vbase, 1)| == |k1| + 3
    ensures Tables(k1, FAR.vbase, 0) == k1
  {
    TablesApart(k1, 0x1000_0000, 0, 2);
    TablesApart(k1, 0x1000_0000, 1, 2);
  }

  // ----- Running out of tables -----------------------------------------------------------------

  /** A region for which exactly one table is missing: line 253 tests the wrong pointer, and the code
      dereferences NULL. */
  method NullIsUsed() returns (pg: Paging, r: Result<()>)
    ensures pg.Valid() && r.Crashed?
  {
    hide Pages, EmptyNodes, Shape, Partition, PageOf, NodesOf, Tables, FreeList, Admits, Agree, RanOut, BootRegions,
         Reservation, OnlyRegions;
    ConfigIsBoot();
    var start, _, _ := PagingInit(CODE, DYN);
    pg := start;
    ApartIsAdmitted(pg.addrs.mappings[..], pg.addrs.used[..], [CODE, DYN], Area(521));
    AreaTables(521);
    ghost var k0, k := pg.tree.Keys, 0;
    r, k := MapRegion(pg, Area(521));
    OneTooFew(k0, pg.Empties(), k, r.Crashed?);
  }

  lemma OneTooFew(k0: set<Node>, empties: set<Node>, k: nat, crashed: bool)
    requires |Tables(k0, Area(521).vbase, 512 * 521)| == BOOT_TABLES + 1
    requires k < 512 * 521 && RanOut(BOOT_TABLES, empties, k0, Area(521).vbase, k, crashed)
    ensures crashed
  {
    hide Tables;
    TablesMonotone(k0, Area(521).vbase, k + 1, 512 * 521);
  }

  /** The first call takes all tables but one. The second one is admitted and needs three: it reports
      ENOMEM, but the region stays registered, so that `virt_to_phys` translates an address that the
      processor does not, and the last table stays linked and empty. */
  method StaysRegistered() returns (pg: Paging, r: Result<()>)
    ensures pg.Valid() && r == Err(ENOMEM) && !Agrees(pg)
    ensures exists i :: 0 <= i < NUM_ADDR_MAPPINGS && pg.addrs.used[i] && pg.addrs.mappings[i] == FAR
    ensures PageOf(FAR.vbase) !in pg.Flat() && pg.Empties() != {}
  {
    hide Pages, EmptyNodes, Shape, Partition, PageOf, RegionDropped, NodesOf, Tables, FreeList, Admits, Agree, RanOut,
         BootRegions, Reservation, OnlyRegions;
    ConfigIsBoot();
    pg := AllButOneTaken();
    ghost var k1, flat, k := pg.tree.Keys, pg.Flat(), 0;
    ghost var maps, used := pg.addrs.mappings[..], pg.addrs.used[..];
    ApartIsAdmitted(maps, used, [CODE, DYN, Area(519)], FAR);
    FarTables(k1);
    r, k := MapRegion(pg, FAR);
    ghost var slot :| Registered(maps, used, pg.addrs.mappings[..], pg.addrs.used[..], FAR, slot);
    assert pg.addrs.mappings[..][slot] == FAR && pg.addrs.used[..][slot];
    TwoTooFew(k1, pg.Empties(), k, r.Crashed?);
    DropCovers(flat, pg.Flat(), FAR, 1);
  }

  method AllButOneTaken() returns (pg: Paging)
    ensures pg.Valid() && Agrees(pg) && pg.Empties() == {} && pg.pool.blocks.Length == BOOT_TABLES
    ensures |pg.tree.Keys| == BOOT_TABLES - 1 && forall a :: a in pg.tree.Keys ==> Top(a) <= 1
    ensures OnlyRegions(pg.addrs.mappings[..], pg.addrs.used[..], [CODE, DYN, Area(519)])
    ensures pg.pbase == DYN.pbase && fresh(pg) && fresh(pg.pool) && fresh(pg.pool.blocks)
    ensures fresh(pg.addrs.mappings) && fresh(pg.addrs.used)
  {
    hide Pages, EmptyNodes, Shape, Partition, PageOf, RegionAdded, NodesOf, Tables, FreeList, Admits, Agree, RanOut,
         BootRegions, Reservation, OnlyRegions;
    ConfigIsBoot();
    var start, _, _ := PagingInit(CODE, DYN);
    pg := start;
    ghost var maps, used := pg.addrs.mappings[..], pg.addrs.used[..];
    ApartIsAdmitted(maps, used, [CODE, DYN], Area(519));
    AreaTables(519);
    var r, _ := MapRegion(pg, Area(519));
    ghost var slot :| Registered(maps, used, pg.addrs.mappings[..], pg.addrs.used[..], Area(519), slot);
    OneRegionMore(maps, used, pg.addrs.mappings[..], pg.addrs.used[..], [CODE, DYN], Area(519), slot);
    assert [CODE, DYN] + [Area(519)] == [CODE, DYN, Area(519)];
  }

  lemma TwoTooFew(k1: set<Node>, empties: set<Node>, k: nat, crashed: bool)
    requires |k1| == BOOT_TABLES - 1 && forall a :: a in k1 ==> Top(a) <= 1
    requires k < 1 && RanOut(BOOT_TABLES, empties, k1, FAR.vbase, k, crashed)
    ensures !crashed && empties != {}
  {
    hide Tables;
    FarTables(k1);
  }
}
