/** `paging_init`: how many tables a contiguous range of pages needs, why the reservation is never
    exhausted, and what holds over whole runs of the outward-facing interface. */
module PagingInitModel {
  import opened Arith
  import opened Common
  import opened Pools
  import opened AddrTables
  import opened PageTree
  import opened PageSteps
  import opened PagingModel
  import opened Regions

  // ----- Counting tables -----------------------------------------------------------------------

  /** The reservation of lines 382 to 389, in tables, for `bytes` of memory. */
  function Reservation(bytes: int): int
  {
    var nPages := AlignUp(bytes, PAGE_SIZE) / PAGE_SIZE;
    var nPts := AlignUp(nPages, NUM_PT_ENTRIES) / NUM_PT_ENTRIES;
    var nPds := AlignUp(nPts, NUM_PT_ENTRIES) / NUM_PT_ENTRIES;
    var nPdpts := AlignUp(nPds, NUM_PT_ENTRIES) / NUM_PT_ENTRIES;
    var nPml4s := AlignUp(nPdpts, NUM_PT_ENTRIES) / NUM_PT_ENTRIES;
    2 * (nPts + nPds + nPdpts + nPml4s)
  }

  /** How many aligned groups of `span` pages the pages `first` to `first + n - 1` touch. */
  function Groups(first: int, n: nat, span: nat): int
    requires span > 0
  {
    if n == 0 then 0 else (first + n - 1) / span - first / span + 1
  }

  lemma IndexOfPage(q: int, level: nat)
    requires 1 <= level <= 4
    ensures PtIdx(PAGE_SIZE * q, level) == q / Span(level) % NUM_PT_ENTRIES
  {
    DivDiv(PAGE_SIZE * q, PAGE_SIZE, Span(level));
  }

  /** Pages in the same group share the table of that group. */
  lemma SameGroupSameTable(q: int, r: int, level: nat)
    requires 1 <= level <= 3 && q / Span(level + 1) == r / Span(level + 1)
    ensures Ancestor(PageOf(PAGE_SIZE * q), level) == Ancestor(PageOf(PAGE_SIZE * r), level)
  {
    forall l | level < l <= 4
      ensures PtIdx(PAGE_SIZE * q, l) == PtIdx(PAGE_SIZE * r, l)
    {
      hide PtIdx;
      IndexOfPage(q, l);
      IndexOfPage(r, l);
      SameInLarger(q, r, Span(level + 1), Span(l), Span(l) / Span(level + 1));
    }
  }

  lemma SameInLarger(q: int, r: int, small: nat, large: nat, rest: nat)
    requires small > 0 && rest > 0 && large == small * rest && q / small == r / small
    ensures large > 0 && q / large == r / large
  {
    DivDiv(q, small, rest);
    DivDiv(r, small, rest);
  }

  lemma NextGroup(q: int, span: nat)
    requires span > 0
    ensures q / span == (q - 1) / span || q / span == (q - 1) / span + 1
  {
    var k, y := (q - 1) / span, (q - 1) % span;
    assert q - 1 == span * k + y;
    if y + 1 < span {
      DivUnique(q, span, k, y + 1);
    } else {
      assert q == span * (k + 1) + 0;
      DivUnique(q, span, k + 1, 0);
    }
  }

  lemma {:induction false} TablesForPages(first: int, n: nat)
    ensures |NodesOf(PAGE_SIZE * first, n)| <= Groups(first, n, Span(2)) + Groups(first, n, Span(3)) +
        Groups(first, n, Span(4))
  {
    hide PageOf, PageAt, Path;
    if n > 0 {
      TablesForPages(first, n - 1);
      hide NodesOf, Groups;
      var s, p := NodesOf(PAGE_SIZE * first, n - 1), PageAt(PAGE_SIZE * first, n - 1);
      NodesOfNext(PAGE_SIZE * first, n - 1, {});
      OneMoreTable(first, n, 1);
      OneMoreTable(first, n, 2);
      OneMoreTable(first, n, 3);
      PathSize(s, p);
    }
  }

  /** One more page needs a new table at `level` only if it starts a new group. */
  lemma OneMoreTable(first: int, n: nat, level: nat)
    requires n > 0 && 1 <= level <= 3
    ensures var a := Ancestor(PageAt(PAGE_SIZE * first, n - 1), level);
            Groups(first, n - 1, Span(level + 1)) + (if a in NodesOf(PAGE_SIZE * first, n - 1) then 0 else 1)
              <= Groups(first, n, Span(level + 1))
  {
    hide PageOf;
    var q := first + n - 1;
    if n > 1 {
      NextGroup(q, Span(level + 1));
      assert AddrAt(PAGE_SIZE * first, n - 1) == PAGE_SIZE * q;
      assert AddrAt(PAGE_SIZE * first, n - 2) == PAGE_SIZE * (q - 1);
      if q / Span(level + 1) == (q - 1) / Span(level + 1) {
        SameGroupSameTable(q, q - 1, level);
        assert Ancestor(PageAt(PAGE_SIZE * first, n - 2), level) in NodesOf(PAGE_SIZE * first, n - 1);
      }
    }
  }

  /** Whatever the alignment of the range, its tables and the root fit the reservation. */
  lemma ReservationSuffices(first: int, n: nat)
    requires n > 0
    ensures |{Pml4} + NodesOf(PAGE_SIZE * first, n)| <= Reservation(PAGE_SIZE * n)
  {
    hide Groups, NodesOf, Reservation;
    TablesForPages(first, n);
    AddOne(NodesOf(PAGE_SIZE * first, n), Pml4);
    assert {Pml4} + NodesOf(PAGE_SIZE * first, n) == NodesOf(PAGE_SIZE * first, n) + {Pml4};
    GroupsBound(first, n);
    ReservationBound(n);
  }

  lemma GroupsBound(first: int, n: nat)
    requires n > 0
    ensures Groups(first, n, Span(2)) <= (n - 1) / 0x200 + 2
    ensures Groups(first, n, Span(3)) <= (n - 1) / 0x4_0000 + 2
    ensures Groups(first, n, Span(4)) <= (n - 1) / 0x800_0000 + 2
  {
  }

  lemma ReservationBound(n: nat)
    requires n > 0
    ensures Reservation(PAGE_SIZE * n) >= 2 * ((n - 1) / 0x200 + (n - 1) / 0x4_0000 + (n - 1) / 0x800_0000 + 4)
  {
    var nPts := (n + 511) / 512 * 512 / 512;
    assert nPts == (n - 1) / 0x200 + 1;
    var nPds := (nPts + 511) / 512 * 512 / 512;
    assert nPds == (nPts - 1) / 0x200 + 1 == (n - 1) / 0x4_0000 + 1;
    var nPdpts := (nPds + 511) / 512 * 512 / 512;
    assert nPdpts == (nPds - 1) / 0x200 + 1 == (n - 1) / 0x800_0000 + 1;
    assert (PAGE_SIZE * n + 4095) / 4096 * 4096 / 4096 == n;
  }

  lemma {:induction false} NodesOfAppend(vbase: int, a: nat, b: nat)
    ensures NodesOf(vbase, a + b) == NodesOf(vbase, a) + NodesOf(vbase + PAGE_SIZE * a, b)
  {
    if b > 0 {
      NodesOfAppend(vbase, a, b - 1);
      assert AddrAt(vbase, a + b - 1) == AddrAt(vbase + PAGE_SIZE * a, b - 1);
    }
  }

  // ----- The regions of a table ----------------------------------------------------------------

  function UsedSlots(used: seq<bool>): set<nat> { set i: nat | i < |used| && used[i] }

  /** The table holds no other regions than `regions`, and at most so many. */
  ghost predicate OnlyRegions(maps: seq<AddrMapping>, used: seq<bool>, regions: seq<AddrMapping>)
  {
    && |maps| == |used| && |UsedSlots(used)| <= |regions|
    && forall i :: 0 <= i < |used| && used[i] ==> maps[i] in regions
  }

  lemma NoRegions(maps: seq<AddrMapping>, used: seq<bool>)
    requires |maps| == |used| && forall i :: 0 <= i < |used| ==> !used[i]
    ensures OnlyRegions(maps, used, [])
  {
    assert UsedSlots(used) == {};
  }

  lemma OneRegionMore(maps: seq<AddrMapping>, used: seq<bool>, maps': seq<AddrMapping>, used': seq<bool>,
                      regions: seq<AddrMapping>, m: AddrMapping, slot: nat)
    requires OnlyRegions(maps, used, regions) && slot < |maps|
    requires maps' == maps[slot := m] && used' == used[slot := true]
    ensures OnlyRegions(maps', used', regions + [m])
  {
    assert UsedSlots(used') == UsedSlots(used) + {slot};
  }

  /** A region apart from all of a few registered ones is admitted. */
  lemma ApartIsAdmitted(maps: seq<AddrMapping>, used: seq<bool>, regions: seq<AddrMapping>, m: AddrMapping)
    requires OnlyRegions(maps, used, regions) && |regions| < |maps|
    requires forall n :: n in regions ==> !VirtOverlap(m, n) && !PhysOverlap(m, n)
    ensures Admits(maps, used, m)
  {
    CountIsZero(maps, used, PhysClash(m, Canonical), |maps|);
    CountIsZero(maps, used, PhysClash(m, Alias), |maps|);
    RangeSize(|used|);
    assert (forall i: nat :: i < |used| ==> used[i]) ==> UsedSlots(used) == Range(|used|);
  }

  // ----- paging_init ---------------------------------------------------------------------------

  /** What src/init.c passes to `paging_init`: two page-aligned regions, the dynamic one right after
      the code both virtually and physically, large enough to hold the tables (lines 391-392), whose
      memory does not contain address 0, which `virt_to_phys` refuses. */
  ghost predicate BootRegions(code: AddrMapping, dyn: AddrMapping)
  {
    && Regular(code) && Regular(dyn)
    && 0 < code.len && 0 < dyn.len
    && code.vbase + code.len == dyn.vbase && code.pbase + code.len == dyn.pbase
    && 0 <= code.pbase
    && !(dyn.vbase <= 0 < dyn.vbase + PAGE_SIZE * Reservation(code.len + dyn.len))
    && dyn.len / 200 > PAGE_SIZE * Reservation(code.len + dyn.len)
    && PAGE_SIZE * Reservation(code.len + dyn.len) < 16 * 0x100000
  }

  /** The boot regions as `paging_init` registers them. */
  function Boot(m: AddrMapping): AddrMapping
  {
    m.(kind := Canonical, mem := WriteBack, perms := Perms(true, false))
  }

  /** `paging_init`. Each `assert` of the method body is one of the source's run-time checks; that
      `res` is Ok says that neither registration nor mapping can fail. */
  method PagingInit(code: AddrMapping, dyn: AddrMapping) returns (pg: Paging, base: int, len: int)
    requires BootRegions(code, dyn)
    ensures pg.Valid() && Agrees(pg) && pg.Empties() == {}
    ensures pg.pool.blocks.Length == Reservation(code.len + dyn.len) && pg.vbase == dyn.vbase && pg.pbase == dyn.pbase
    ensures base == dyn.vbase + PAGE_SIZE * pg.pool.blocks.Length && base + len == dyn.vbase + dyn.len
    ensures pg.tree.Keys == Tables({Pml4}, code.vbase, (code.len + dyn.len) / PAGE_SIZE)
    ensures exists i :: 0 <= i < NUM_ADDR_MAPPINGS && pg.addrs.used[i] && pg.addrs.mappings[i] == Boot(code)
    ensures pg.addrs.used[pg.home] && pg.addrs.mappings[pg.home] == Boot(dyn)
    ensures forall a :: PageAligned(a) && InRange(a, code.vbase, code.len + dyn.len) ==>
              && PageOf(a) in pg.Flat()
              && pg.Flat()[PageOf(a)] == Leaf(code.pbase + (a - code.vbase), Perms(true, false), WriteBack)
    ensures forall a :: PageAligned(a) && !InRange(a, code.vbase, code.len + dyn.len) ==> PageOf(a) !in pg.Flat()
    ensures OnlyRegions(pg.addrs.mappings[..], pg.addrs.used[..], [Boot(code), Boot(dyn)])
    ensures fresh(pg) && fresh(pg.pool) && fresh(pg.pool.blocks)
    ensures fresh(pg.addrs) && fresh(pg.addrs.mappings) && fresh(pg.addrs.used)
  {
    hide Pages, EmptyNodes, Shape, Partition, PageOf, RegionAdded, NodesOf, Tables, FreeList, Reservation, Admits,
         Agree, HomeOk, RanOut, VirtDisjoint, OnlyRegions;
    var nTables := Reservation(code.len + dyn.len);
    ghost var nCode, nDyn := code.len / PAGE_SIZE, dyn.len / PAGE_SIZE;
    BootFits(code, dyn, nCode, nDyn);
    pg := new Paging(dyn.vbase, dyn.pbase, nTables);
    var code', dyn' := Boot(code), Boot(dyn);
    ghost var maps0, used0 := pg.addrs.mappings[..], pg.addrs.used[..];
    ghost var codeSlot, dynSlot := RegisterBoot(pg, code', dyn');

    ghost var flat0 := pg.Flat();
    var res;
    ghost var k;
    res, k := MapPages(pg, code', nCode);
    assert res.Ok?;
    ghost var flat1 := pg.Flat();
    res, k := MapPages(pg, dyn', nDyn);
    assert res.Ok?;

    NothingMapped(maps0, used0, flat0);
    AgreeAfterMap(maps0, used0, flat0, flat1, code', codeSlot, nCode);
    AgreeAfterMap(maps0[codeSlot := code'], used0[codeSlot := true], flat1, pg.Flat(), dyn', dynSlot, nDyn);
    assert pg.addrs.mappings[..][codeSlot] == code' && pg.addrs.used[..][codeSlot];
    AddedPages(flat0, flat1, code', nCode);
    AddedPages(flat1, pg.Flat(), dyn', nDyn);
    base, len := dyn.vbase + PAGE_SIZE * nTables, dyn.len - PAGE_SIZE * nTables;
  }

  /** The two registrations, of which the second holds the tables. */
  method RegisterBoot(pg: Paging, code: AddrMapping, dyn: AddrMapping) returns (ghost codeSlot: nat, ghost dynSlot: nat)
    requires pg.addrs.Valid() && forall i :: 0 <= i < NUM_ADDR_MAPPINGS ==> !pg.addrs.used[i]
    requires !VirtOverlap(dyn, code) && !PhysOverlap(dyn, code) && dyn.kind == Canonical
    requires pg.vbase == dyn.vbase && pg.pbase == dyn.pbase && 0 < dyn.pbase
    requires !(dyn.vbase <= 0 < dyn.vbase + PAGE_SIZE * pg.pool.blocks.Length)
    requires PAGE_SIZE * pg.pool.blocks.Length < dyn.len
    modifies pg`home, pg.addrs.mappings, pg.addrs.used
    ensures pg.AddrsOk() && pg.home == dynSlot
    ensures codeSlot < NUM_ADDR_MAPPINGS && dynSlot < NUM_ADDR_MAPPINGS && codeSlot != dynSlot
    ensures pg.addrs.mappings[..] == old(pg.addrs.mappings[..])[codeSlot := code][dynSlot := dyn]
    ensures pg.addrs.used[..] == old(pg.addrs.used[..])[codeSlot := true][dynSlot := true]
    ensures var maps, used := old(pg.addrs.mappings[..]), old(pg.addrs.used[..]);
            forall i :: 0 <= i < NUM_ADDR_MAPPINGS ==>
              && !Hit(maps, used, VirtClash(code), i)
              && !Hit(maps[codeSlot := code], used[codeSlot := true], VirtClash(dyn), i)
    ensures OnlyRegions(pg.addrs.mappings[..], pg.addrs.used[..], [code, dyn])
  {
    hide Admits, HomeOk, OnlyRegions, VirtDisjoint;
    ghost var maps0, used0 := pg.addrs.mappings[..], pg.addrs.used[..];
    NoRegions(maps0, used0);
    FirstAdmitted(maps0, used0, code);
    var res, slot := pg.addrs.Add(code);
    assert res.Ok?;
    codeSlot := slot;
    ghost var maps1, used1 := pg.addrs.mappings[..], pg.addrs.used[..];
    OneRegionMore(maps0, used0, maps1, used1, [], code, codeSlot);
    SecondAdmitted(maps1, used1, code, codeSlot, dyn);
    res, slot := pg.addrs.Add(dyn);
    assert res.Ok?;
    dynSlot := slot;
    pg.home := dynSlot;
    assert [] + [code] == [code] && [code] + [dyn] == [code, dyn];
    OneRegionMore(maps1, used1, pg.addrs.mappings[..], pg.addrs.used[..], [code], dyn, dynSlot);
    HomeIsDyn(pg.addrs.mappings[..], pg.addrs.used[..], code, codeSlot, dyn, dynSlot, pg.pool.blocks.Length);
  }

  /** The code's tables and then all tables fit the reservation. */
  lemma BootFits(code: AddrMapping, dyn: AddrMapping, nCode: nat, nDyn: nat)
    requires BootRegions(code, dyn) && nCode == code.len / PAGE_SIZE && nDyn == dyn.len / PAGE_SIZE
    ensures code.len == PAGE_SIZE * nCode && dyn.len == PAGE_SIZE * nDyn
    ensures Reservation(code.len + dyn.len) > 0
    ensures PAGE_SIZE * Reservation(code.len + dyn.len) < dyn.len
    ensures |Tables({Pml4}, code.vbase, nCode)| <= Reservation(code.len + dyn.len)
    ensures |Tables(Tables({Pml4}, code.vbase, nCode), dyn.vbase, nDyn)| <= Reservation(code.len + dyn.len)
    ensures Tables(Tables({Pml4}, code.vbase, nCode), dyn.vbase, nDyn) ==
              Tables({Pml4}, code.vbase, (code.len + dyn.len) / PAGE_SIZE)
  {
    hide Reservation, NodesOf;
    var first := code.vbase / PAGE_SIZE;
    WholePages(code);
    WholePages(dyn);
    ReservationSuffices(first, nCode + nDyn);
    NodesOfAppend(code.vbase, nCode, nDyn);
    var all := {Pml4} + NodesOf(code.vbase, nCode + nDyn);
    assert {Pml4} + NodesOf(code.vbase, nCode) + NodesOf(dyn.vbase, nDyn) == all;
    SubsetSize({Pml4} + NodesOf(code.vbase, nCode), all);
    SubsetSize({Pml4}, all);
  }

  lemma WholePages(m: AddrMapping)
    requires Regular(m)
    ensures m.len == PAGE_SIZE * (m.len / PAGE_SIZE) && m.vbase == PAGE_SIZE * (m.vbase / PAGE_SIZE)
  {
  }

  lemma FirstAdmitted(maps: seq<AddrMapping>, used: seq<bool>, m: AddrMapping)
    requires 0 < |maps| == |used| && forall i :: 0 <= i < |used| ==> !used[i]
    ensures Admits(maps, used, m)
    ensures forall i :: 0 <= i < |maps| ==> !Hit(maps, used, VirtClash(m), i)
  {
    CountIsZero(maps, used, PhysClash(m, Canonical), |maps|);
    CountIsZero(maps, used, PhysClash(m, Alias), |maps|);
    assert !used[0];
  }

  lemma SecondAdmitted(maps: seq<AddrMapping>, used: seq<bool>, code: AddrMapping, slot: nat, dyn: AddrMapping)
    requires 1 < |maps| == |used| && slot < |maps| && maps[slot] == code
    requires forall i :: 0 <= i < |used| ==> (used[i] <==> i == slot)
    requires !VirtOverlap(dyn, code) && !PhysOverlap(dyn, code)
    ensures Admits(maps, used, dyn)
    ensures forall i :: 0 <= i < |maps| ==> !Hit(maps, used, VirtClash(dyn), i)
  {
    CountIsZero(maps, used, PhysClash(dyn, Canonical), |maps|);
    CountIsZero(maps, used, PhysClash(dyn, Alias), |maps|);
    assert !used[if slot == 0 then 1 else 0];
  }

  lemma HomeIsDyn(maps: seq<AddrMapping>, used: seq<bool>, code: AddrMapping, codeSlot: nat,
                  dyn: AddrMapping, dynSlot: nat, nTables: nat)
    requires |maps| == |used| && codeSlot < |maps| && dynSlot < |maps| && codeSlot != dynSlot
    requires maps[codeSlot] == code && maps[dynSlot] == dyn && dyn.kind == Canonical
    requires forall i :: 0 <= i < |used| ==> (used[i] <==> i == codeSlot || i == dynSlot)
    requires !PhysOverlap(dyn, code) && !(dyn.vbase <= 0 < dyn.vbase + PAGE_SIZE * nTables) && 0 < dyn.pbase &&
        PAGE_SIZE * nTables < dyn.len
    ensures HomeOk(maps, used, dynSlot, dyn.vbase, dyn.pbase, PAGE_SIZE * nTables)
  {
  }

  lemma NothingMapped(maps: seq<AddrMapping>, used: seq<bool>, flat: imap<Page, Leaf>)
    requires |maps| == |used| && (forall i :: 0 <= i < |used| ==> !used[i]) && flat == imap[]
    ensures Agree(maps, used, flat)
  {
  }

  // ----- Whole runs ----------------------------------------------------------------------------

  datatype Call = Map(m: AddrMapping) | Unmap(m: AddrMapping)

  /** What the callers of the interface promise: page-aligned regions; new regions that do not claim
      the pool's memory as canonical; and that the region with the page tables stays. */
  ghost predicate CallOk(pg: Paging, call: Call)
    reads pg, pg.pool, pg.addrs, pg.addrs.mappings
  {
    && Regular(call.m)
    && (call.Map? ==> SparesPool(pg, call.m))
    && (call.Unmap? ==> pg.home < pg.addrs.mappings.Length && !VirtOverlap(call.m, pg.addrs.mappings[pg.home]))
  }

  /** Any run of calls keeps page tables and regions in agreement, whether they succeed or are rejected:
      for every non-zero address the processor's walk then equals `virt_to_phys`, and no table is left
      empty. The run ends early exactly at a call that breaks the agreement, which is one of those that
      MapRegion and UnmapRegion name. */
  method Run(pg: Paging, calls: seq<Call>) returns (n: nat)
    requires pg.Valid() && Agrees(pg) && pg.Empties() == {}
    requires forall c :: c in calls ==> CallOk(pg, c)
    modifies pg.pool, pg.pool.blocks, pg`tree, pg.addrs.mappings, pg.addrs.used
    ensures pg.Valid() && n <= |calls|
    ensures Agrees(pg) <==> n == |calls|
    ensures n == |calls| ==> pg.Empties() == {}
    ensures n == |calls| ==> forall v :: CanonicalAddr(v) && v != 0 ==>
              VirtToPhys(pg.addrs.mappings[..], pg.addrs.used[..], v) ==
                match Hardware(pg.Flat(), v) case Some(p) => Ok(p) case None => Err(EINVAL)
    ensures n == |calls| ==> forall i, a ::
              0 <= i < NUM_ADDR_MAPPINGS && pg.addrs.used[i] && PageAligned(a) &&
              InRange(a, pg.addrs.mappings[i].vbase, pg.addrs.mappings[i].len) ==>
                var m := pg.addrs.mappings[i];
                PageOf(a) in pg.Flat() && pg.Flat()[PageOf(a)] == Leaf(m.pbase + (a - m.vbase), m.perms, m.mem)
  {
    hide Pages, EmptyNodes, Shape, Partition, PageOf, FreeList, Agree;
    n := 0;
    while n < |calls|
      invariant n <= |calls|
      invariant pg.Valid() && Agrees(pg) && pg.Empties() == {}
      invariant forall c :: c in calls ==> CallOk(pg, c)
    {
      assert CallOk(pg, calls[n]);
      var harmless := Perform(pg, calls[n]);
      if !harmless {
        return;
      }
      n := n + 1;
    }
    forall v | CanonicalAddr(v) && v != 0
      ensures VirtToPhys(pg.addrs.mappings[..], pg.addrs.used[..], v) ==
                match Hardware(pg.Flat(), v) case Some(p) => Ok(p) case None => Err(EINVAL)
    {
      WalkIsVirtToPhys(pg.addrs.mappings[..], pg.addrs.used[..], pg.Flat(), v);
    }
    PagesOfRegions(pg.addrs.mappings[..], pg.addrs.used[..], pg.Flat());
  }

  /** One call. Its caller can tell from the result, and from the table of regions before the call,
      whether it has done harm. */
  method Perform(pg: Paging, call: Call) returns (harmless: bool)
    requires pg.Valid() && Agrees(pg) && pg.Empties() == {} && CallOk(pg, call)
    modifies pg.pool, pg.pool.blocks, pg`tree, pg.addrs.mappings, pg.addrs.used
    ensures pg.Valid() && pg.addrs.mappings[pg.home] == old(pg.addrs.mappings[pg.home])
    ensures harmless <==> Agrees(pg)
    ensures harmless ==> pg.Empties() == {}
  {
    hide Pages, EmptyNodes, Shape, Partition, PageOf, RegionAdded, RegionDropped, NodesOf, Tables, FreeList, Admits,
         Compatible, Agree, RanOut;
    ghost var maps, used, flat := pg.addrs.mappings[..], pg.addrs.used[..], pg.Flat();
    match call {
      case Map(m) =>
        var room := HasRoom(pg.addrs);
        AdmitsWithRoom(maps, used, m);
        var r, _ := MapRegion(pg, m);
        harmless := !r.Crashed? && (r == Err(ENOMEM) ==> !room);
      case Unmap(m) =>
        var covered := Covered(pg.addrs, m.vbase);
        if m.len > 0 {
          FirstPageMapped(maps, used, flat, m);
        }
        var r := UnmapRegion(pg, m);
        harmless := r.Ok? || m.len == 0 || !covered;
    }
  }

  lemma AdmitsWithRoom(maps: seq<AddrMapping>, used: seq<bool>, m: AddrMapping)
    requires |maps| == |used|
    ensures Admits(maps, used, m) <==> Compatible(maps, used, m) && exists i :: 0 <= i < |used| && !used[i]
  {
  }

  /** When regions and tables agree, the first page of a range is mapped exactly if a region covers it. */
  lemma FirstPageMapped(maps: seq<AddrMapping>, used: seq<bool>, flat: imap<Page, Leaf>, m: AddrMapping)
    requires |maps| == |used| && Agree(maps, used, flat) && Regular(m) && m.len > 0
    ensures PageOf(m.vbase) in flat <==> exists i :: 0 <= i < |maps| && Hit(maps, used, CoversVirt(m.vbase), i)
  {
    hide PageOf;
    assert PageAgrees(maps, used, flat, m.vbase);
  }

  method HasRoom(addrs: AddrTable) returns (room: bool)
    requires addrs.Valid()
    ensures room <==> exists i :: 0 <= i < NUM_ADDR_MAPPINGS && !addrs.used[i]
  {
    for i := 0 to NUM_ADDR_MAPPINGS
      invariant forall j :: 0 <= j < i ==> addrs.used[j]
    {
      if !addrs.used[i] {
        return true;
      }
    }
    return false;
  }

  method Covered(addrs: AddrTable, vaddr: int) returns (covered: bool)
    requires addrs.Valid()
    ensures covered <==>
              exists i :: 0 <= i < NUM_ADDR_MAPPINGS && Hit(addrs.mappings[..], addrs.used[..], CoversVirt(vaddr), i)
  {
    for i := 0 to NUM_ADDR_MAPPINGS
      invariant forall j :: 0 <= j < i ==> !Hit(addrs.mappings[..], addrs.used[..], CoversVirt(vaddr), j)
    {
      if addrs.used[i] && InRange(vaddr, addrs.mappings[i].vbase, addrs.mappings[i].len) {
        assert Hit(addrs.mappings[..], addrs.used[..], CoversVirt(vaddr), i);
        return true;
      }
    }
    return false;
  }
}
