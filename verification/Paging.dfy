/** src/paging.c: the page tables in the pool's memory, and the operations that map and unmap
    single pages and whole regions. */
module PagingModel {
  import opened Common
  import opened Pools
  import opened AddrTables
  import opened PageTree
  import opened PageSteps

  /** The region in slot `home` is the only canonical region over the pool's memory and maps it. */
  ghost predicate HomeOk(maps: seq<AddrMapping>, used: seq<bool>, home: nat, vbase: int, pbase: int, len: int)
    requires |maps| == |used|
  {
    && home < |maps| && used[home] && maps[home].kind == Canonical
    && maps[home].vbase <= vbase && vbase + len <= maps[home].vbase + maps[home].len
    && pbase - maps[home].pbase == vbase - maps[home].vbase
    && !(vbase <= 0 < vbase + len) && 0 < pbase
    && (forall i :: 0 <= i < |maps| && used[i] && i != home && maps[i].kind == Canonical ==>
          !IntervalsOverlap(maps[i].pbase, maps[i].pbase + maps[i].len, pbase, pbase + len))
  }

  /** The number of tables that mapping `p` has to add. */
  ghost function Missing(tree: Tree, p: Page): nat
  {
    (if Ancestor(p, 3) in tree then 0 else 1) +
    (if Ancestor(p, 2) in tree then 0 else 1) +
    (if Ancestor(p, 1) in tree then 0 else 1)
  }

  ghost function Path(p: Page): set<Node>
  {
    {Ancestor(p, 3), Ancestor(p, 2), Ancestor(p, 1)}
  }

  lemma BlockOfAddr(base: int, k: nat)
    ensures (AddrOf(base, k) - base) / PAGE_SIZE == k
  {
  }

  /** What a visit to the child `c` of `n`, whose table is then in block `r`, does to the tree, to
      the number of free blocks and to the set of empty tables. */
  ghost predicate Visited(t: Tree, t': Tree, free: nat, free': int, e: set<Node>, e': set<Node>, n: Node, c: Node,
                          r: nat)
  {
    && t' == t[c := r]
    && free' == free - (if c in t then 0 else 1)
    && n !in e' && e' - {c} == e - {n, c}
  }

  lemma DirectoryVisited(t0: Tree, t1: Tree, t2: Tree, f0: nat, f1: nat, f2: nat,
                         e0: set<Node>, e1: set<Node>, e2: set<Node>, p: Page, r3: nat, r2: nat)
    requires Pml4 !in e0
    requires Visited(t0, t1, f0, f1, e0, e1, Pml4, Ancestor(p, 3), r3)
    requires Visited(t1, t2, f1, f2, e1, e2, Ancestor(p, 3), Ancestor(p, 2), r2)
    ensures t2.Keys == t0.Keys + {Ancestor(p, 3), Ancestor(p, 2)}
    ensures e2 - {Ancestor(p, 2)} == e0 - {Ancestor(p, 3), Ancestor(p, 2)}
  {
    var a3, a2 := Ancestor(p, 3), Ancestor(p, 2);
    forall x
      ensures x in e2 - {a2} <==> x in e0 - {a3, a2}
    {
      assert x in e1 - {a3} <==> x in e0 - {Pml4, a3};
      assert x in e2 - {a2} <==> x in e1 - {a3, a2};
    }
  }

  lemma TableVisited(k0: set<Node>, t2: Tree, t3: Tree, f2: nat, f3: nat,
                     e0: set<Node>, e2: set<Node>, e3: set<Node>, p: Page, r1: nat)
    requires t2.Keys == k0 + {Ancestor(p, 3), Ancestor(p, 2)}
    requires e2 - {Ancestor(p, 2)} == e0 - {Ancestor(p, 3), Ancestor(p, 2)}
    requires Visited(t2, t3, f2, f3, e2, e3, Ancestor(p, 2), Ancestor(p, 1), r1)
    ensures t3.Keys == k0 + Path(p)
    ensures e3 - {Ancestor(p, 1)} == e0 - Path(p)
  {
    var a2, a1 := Ancestor(p, 2), Ancestor(p, 1);
    forall x
      ensures x in e3 - {a1} <==> x in e0 - Path(p)
    {
      assert x in e2 - {a2} <==> x in e0 - {Ancestor(p, 3), a2};
      assert x in e3 - {a1} <==> x in e2 - {a2, a1};
    }
  }

  lemma EmptiesAlongPrune(e0: set<Node>, e1: set<Node>, e2: set<Node>, e3: set<Node>,
                          a1: Node, a2: Node, a3: Node, r: Node)
    requires r != a3 && r != a2 && r != a1 && a3 != a2 && a3 != a1 && a2 != a1
    requires a2 !in e0 && a3 !in e0 && r !in e0 && r !in e3
    requires a1 !in e1 && e1 - {a2} == e0 - {a2, a1}
    requires a2 !in e2 && e2 - {a3} == e1 - {a3, a2}
    requires a3 !in e3 && e3 - {r} == e2 - {r, a3}
    ensures e3 == e0 - {a1}
  {
    forall x
      ensures x in e3 <==> x in e0 - {a1}
    {
      assert x in e1 - {a2} <==> x in e0 - {a2, a1};
      assert x in e2 - {a3} <==> x in e1 - {a3, a2};
      assert x in e3 - {r} <==> x in e2 - {r, a3};
    }
  }

  lemma OnlyOneChanged(e0: set<Node>, e: set<Node>, a1: Node, a2: Node, a3: Node)
    requires a1 !in e0 && a2 !in e0 && a3 !in e0 && a2 != a1 && a3 != a1
    requires e - {a1} == e0 - {a1}
    ensures a2 !in e && a3 !in e && e - {a1} == e0
  {
    assert a2 in e <==> a2 in e0 - {a1};
    assert a3 in e <==> a3 in e0 - {a1};
  }

  lemma RemovedTwice(e: set<Node>, e': set<Node>, n: Node, e0: set<Node>, path: set<Node>)
    requires e - {n} == e0 - path && n in path
    requires e' - {n} == e - {n} && n !in e'
    ensures e' == e0 - path
  {
  }

  lemma SubsetFromUnion(e: set<Node>, e0: set<Node>, removed: set<Node>, n: Node, path: set<Node>)
    requires e - {n} == e0 - removed && n in path
    ensures e <= e0 + path
  {
    forall x | x in e
      ensures x in e0 + path
    {
      assert x in e - {n} <==> x in e0 - removed;
    }
  }

  class Paging {
    const pool: Pool<Table>      // global_pt_page_alloc
    const addrs: AddrTable       // global_addr_mappings
    const vbase: int             // The pool's memory, as a virtual
    const pbase: int             // and as a physical address.
    var pml4: nat                // global_page_table
    ghost var tree: Tree
    ghost var home: nat

    ghost function Mem(): Memory
      reads pool.blocks
    {
      pool.blocks[..]
    }

    /** The flat map that the processor sees. */
    ghost function Flat(): imap<Page, Leaf>
      reads this, pool.blocks
    {
      Pages(Mem(), pbase, pml4)
    }

    ghost function Empties(): set<Node>
      reads this, pool.blocks
    {
      EmptyNodes(Mem(), tree)
    }

    ghost predicate TablesOk()
      reads this`tree, this`pml4, pool, pool.blocks
    {
      && pool.Valid()
      && Shape(Mem(), pbase, pml4, tree)
      && Partition(tree, pool.list, pool.blocks.Length)
    }

    ghost predicate AddrsOk()
      reads this`home, addrs, addrs.mappings, addrs.used
    {
      && addrs.Valid()
      && HomeOk(addrs.mappings[..], addrs.used[..], home, vbase, pbase, PAGE_SIZE * pool.blocks.Length)
    }

    ghost predicate Valid()
      reads this, pool, pool.blocks, addrs, addrs.mappings, addrs.used
    {
      TablesOk() && AddrsOk()
    }

    constructor (vbase: int, pbase: int, n: nat)
      requires n > 0
      ensures TablesOk() && fresh(pool) && fresh(pool.blocks)
      ensures fresh(addrs) && fresh(addrs.mappings) && fresh(addrs.used)
      ensures addrs.Valid()
      ensures this.vbase == vbase && this.pbase == pbase && pool.blocks.Length == n
      ensures forall i :: 0 <= i < NUM_ADDR_MAPPINGS ==> !addrs.used[i]
      ensures |pool.list| == n - 1 && Flat() == imap[] && Empties() == {} && tree.Keys == {Pml4}
    {
      pool := new Pool(n, ZERO_TABLE);
      addrs := new AddrTable();
      this.vbase, this.pbase := vbase, pbase;
      pml4 := 0;
      new;
      var b := pool.Alloc(ZERO_TABLE);
      pml4 := b;
      tree := map[Pml4 := b];
      InitialTable(Mem(), pbase, b, pool.list);
    }

    /** The kernel's own translations lead from a table's frame to the table and back. */
    lemma TableTranslates(k: nat)
      requires AddrsOk() && k < pool.blocks.Length
      ensures PhysToVirt(addrs.mappings[..], addrs.used[..], AddrOf(pbase, k)) == Ok(AddrOf(vbase, k))
      ensures VirtToPhys(addrs.mappings[..], addrs.used[..], AddrOf(vbase, k)) == Ok(AddrOf(pbase, k))
    {
      var maps, used, p, v := addrs.mappings[..], addrs.used[..], AddrOf(pbase, k), AddrOf(vbase, k);
      assert Hit(maps, used, CoversPhys(p, Canonical), home);
      forall j | 0 <= j < |maps| && Hit(maps, used, CoversPhys(p, Canonical), j)
        ensures j == home
      {
        assert InRange(p, maps[j].pbase, maps[j].len);
      }
      PhysToVirtIsUnique(maps, used, p, home);
      assert Hit(maps, used, CoversVirt(v), home);
      assert forall j :: 0 <= j < |maps| && Hit(maps, used, CoversVirt(v), j) && j != home ==>
          VirtOverlap(maps[j], maps[home]) && VirtOverlap(maps[home], maps[j]);
      VirtToPhysIsUnique(maps, used, v, home);
    }

    /** `pt_get`: the table that entry `i` of table `k` points to. */
    method PtGet(k: nat, i: nat, ghost n: Node) returns (r: int)
      requires Valid()
      requires n in tree && tree[n] == k && !n.Pt? && i < NUM_PT_ENTRIES
      ensures r == if Child(n, i) in tree then tree[Child(n, i)] else NULL
    {
      assert NodeOk(Mem(), tree, n) && EntryOk(Mem(), pbase, tree, n, i);
      if pool.blocks[k].value[i].present {
        TableTranslates(tree[Child(n, i)]);
        var va := addrs.ToVirt(pool.blocks[k].value[i].addr);
        BlockOfAddr(vbase, tree[Child(n, i)]);
        return (va.value - vbase) / PAGE_SIZE;
      }
      return NULL;
    }

    method PtInsert(k: nat, i: nat, e: Pte)
      requires pool.Valid() && k < pool.blocks.Length && k !in pool.list && i < NUM_PT_ENTRIES
      modifies pool.blocks
      ensures pool.Valid() && Mem() == old(WithEntry(Mem(), k, i, e))
    {
      ghost var mem := Mem();
      pool.blocks[k] := Used(pool.blocks[k].value[i := e]);
      assert Mem() == WithEntry(mem, k, i, e);
      forall j | 0 <= j < |pool.list|
        ensures Linked(Mem(), pool.list, j)
      {
        assert Linked(mem, pool.list, j);
      }
    }

    /** `pt_get_or_alloc`. Neither outcome changes what any page translates to. */
    method PtGetOrAlloc(k: nat, i: nat, perms: Perms, ghost n: Node) returns (r: int)
      requires Valid()
      requires n in tree && tree[n] == k && !n.Pt? && i < NUM_PT_ENTRIES
      requires UpPermits(Mem(), pbase, pml4, tree, n, perms)
      modifies pool, pool.blocks, this`tree
      ensures TablesOk()
      ensures Flat() == old(Flat())
      ensures r == NULL <==> Child(n, i) !in old(tree) && old(pool.list) == []
      ensures r == NULL ==> tree == old(tree) && Mem() == old(Mem()) && pool.list == []
      ensures r != NULL ==>
                && r >= 0
                && Visited(old(tree), tree, |old(pool.list)|, |pool.list|, old(Empties()), Empties(), n, Child(n, i), r)
                && UpPermits(Mem(), pbase, pml4, tree, Child(n, i), perms)
      ensures r != NULL ==>
                if Child(n, i) in old(tree) then Empties() == old(Empties()) - {n} else Child(n, i) in Empties()
    {
      assert NodeOk(Mem(), tree, n) && tree[n] in tree.Values;
      r := PtGet(k, i, n);
      if r == NULL {
        r := LinkFresh(k, i, perms, n);
      } else {
        Widen(k, i, perms, n);
        assert tree == tree[Child(n, i) := r];
      }
    }

    method LinkFresh(k: nat, i: nat, perms: Perms, ghost n: Node) returns (r: int)
      requires Valid()
      requires n in tree && tree[n] == k && !n.Pt? && i < NUM_PT_ENTRIES && NodeOk(Mem(), tree, n)
      requires UpPermits(Mem(), pbase, pml4, tree, n, perms)
      requires Child(n, i) !in tree
      modifies pool, pool.blocks, this`tree
      ensures TablesOk()
      ensures r == NULL <==> old(pool.list) == []
      ensures r == NULL ==> tree == old(tree) && Mem() == old(Mem()) && pool.list == old(pool.list)
      ensures r != NULL ==>
                && r >= 0
                && tree == old(tree)[Child(n, i) := r]
                && pool.list == old(pool.list)[1..]
                && UpPermits(Mem(), pbase, pml4, tree, Child(n, i), perms)
                && Flat() == old(Flat())
                && Empties() == old(Empties()) - {n} + {Child(n, i)}
    {
      ghost var mem, list := Mem(), pool.list;
      r := pool.Alloc(ZERO_TABLE);
      if r == NULL {
        return;
      }
      AddStep(mem, pbase, pml4, tree, list, n, i, perms);
      TableTranslates(r);
      var pa := addrs.ToPhys(AddrOf(vbase, r));
      PtInsert(k, i, Pte(true, pa.value, perms, WriteBack));
      tree := tree[Child(n, i) := r];
      assert Mem() == WithEntry(mem[r := Used(ZERO_TABLE)], k, i, Pte(true, AddrOf(pbase, r), perms, WriteBack));
    }

    method Widen(k: nat, i: nat, perms: Perms, ghost n: Node)
      requires Valid()
      requires n in tree && tree[n] == k && !n.Pt? && i < NUM_PT_ENTRIES && NodeOk(Mem(), tree, n)
      requires UpPermits(Mem(), pbase, pml4, tree, n, perms)
      requires Child(n, i) in tree
      modifies pool.blocks
      ensures TablesOk() && Flat() == old(Flat()) && Empties() == old(Empties()) - {n}
      ensures UpPermits(Mem(), pbase, pml4, tree, Child(n, i), perms)
    {
      assert tree[n] in tree.Values;
      WidenStep(Mem(), pbase, pml4, tree, n, i, perms);
      var e := pool.blocks[k].value[i];
      PtInsert(k, i, e.(perms := e.perms.Or(perms)));
    }

    /** The tables at the upper two levels of the path of `vaddr`, found or made. */
    method PathDirectory(vaddr: int, perms: Perms) returns (r: Result<nat>)
      requires Valid()
      modifies pool, pool.blocks, this`tree
      ensures TablesOk() && Flat() == old(Flat())
      ensures !r.Crashed? && (r.Err? ==> r.code == ENOMEM)
      ensures var missing := (if Ancestor(PageOf(vaddr), 3) in old(tree) then 0 else 1) +
                             (if Ancestor(PageOf(vaddr), 2) in old(tree) then 0 else 1);
              && (r.Ok? <==> missing <= |old(pool.list)|)
              && (r.Ok? ==> |pool.list| == |old(pool.list)| - missing)
      ensures r.Ok? ==>
                && Ancestor(PageOf(vaddr), 2) in tree && tree[Ancestor(PageOf(vaddr), 2)] == r.value
                && UpPermits(Mem(), pbase, pml4, tree, Ancestor(PageOf(vaddr), 2), perms)
                && tree.Keys == old(tree.Keys) + {Ancestor(PageOf(vaddr), 3), Ancestor(PageOf(vaddr), 2)}
                && Empties() - {Ancestor(PageOf(vaddr), 2)} ==
                     old(Empties()) - {Ancestor(PageOf(vaddr), 3), Ancestor(PageOf(vaddr), 2)}
                && (if Ancestor(PageOf(vaddr), 2) in old(tree) then Empties() == old(Empties())
                    else Ancestor(PageOf(vaddr), 2) in Empties())
      ensures !r.Ok? ==>
                && (Empties() == old(Empties()) <==> old(pool.list) == [])
                && (Empties() <= old(tree.Keys) <==> old(pool.list) == [])
      ensures !r.Ok? ==>
                && pool.list == [] && Ancestor(PageOf(vaddr), 1) !in tree
                && Empties() <= old(Empties()) + Path(PageOf(vaddr))
                && old(tree.Keys) <= tree.Keys <= old(tree.Keys) + Path(PageOf(vaddr))
    {
      hide Pages, EmptyNodes, Shape, Partition, FreeList, HomeOk, VirtDisjoint;
      ghost var p := PageOf(vaddr);
      PathClosed(p);
      var pdpt := PtGetOrAlloc(pml4, PtIdx(vaddr, 4), perms, Pml4);
      if pdpt == NULL {
        return Err(ENOMEM);
      }
      ghost var t1, f1, e1 := tree, |pool.list|, Empties();
      SubsetFromUnion(e1, old(Empties()), {Pml4, Ancestor(p, 3)}, Ancestor(p, 3), Path(p));
      var pd := PtGetOrAlloc(pdpt, PtIdx(vaddr, 3), perms, Ancestor(p, 3));
      if pd == NULL {
        return Err(ENOMEM);
      }
      DirectoryVisited(old(tree), t1, tree, |old(pool.list)|, f1, |pool.list|,
                       old(Empties()), e1, Empties(), p, pdpt, pd);
      return Ok(pd);
    }

    /** All tables on the path of `vaddr`, found or made. */
    method PathTables(vaddr: int, perms: Perms) returns (r: Result<nat>)
      requires Valid()
      modifies pool, pool.blocks, this`tree
      ensures TablesOk() && Flat() == old(Flat())
      ensures var missing := Missing(old(tree), PageOf(vaddr));
              && (r.Ok? <==> missing <= |old(pool.list)|)
              && (r.Crashed? <==> missing == |old(pool.list)| + 1)
              && (r.Err? ==> r.code == ENOMEM)
      ensures r.Ok? ==>
                && Ancestor(PageOf(vaddr), 1) in tree && tree[Ancestor(PageOf(vaddr), 1)] == r.value
                && UpPermits(Mem(), pbase, pml4, tree, Ancestor(PageOf(vaddr), 1), perms)
                && |pool.list| == |old(pool.list)| - Missing(old(tree), PageOf(vaddr))
                && tree.Keys == old(tree.Keys) + Path(PageOf(vaddr))
                && Empties() - {Ancestor(PageOf(vaddr), 1)} == old(Empties()) - Path(PageOf(vaddr))
      ensures !r.Ok? ==>
                && (Empties() == old(Empties()) <==> old(pool.list) == [])
                && (Empties() <= old(tree.Keys) <==> old(pool.list) == [])
      ensures !r.Ok? ==>
                && pool.list == [] && Ancestor(PageOf(vaddr), 1) !in tree
                && Empties() <= old(Empties()) + Path(PageOf(vaddr))
                && old(tree.Keys) <= tree.Keys <= old(tree.Keys) + Path(PageOf(vaddr))
    {
      hide Pages, EmptyNodes, Shape, Partition, FreeList, HomeOk, VirtDisjoint;
      ghost var p := PageOf(vaddr);
      PathClosed(p);
      var pd := PathDirectory(vaddr, perms);
      if !pd.Ok? {
        return pd;
      }
      ghost var t2, f2, e2 := tree, |pool.list|, Empties();
      SubsetFromUnion(e2, old(Empties()), {Ancestor(p, 3), Ancestor(p, 2)}, Ancestor(p, 2), Path(p));
      var pt := PtGetOrAlloc(pd.value, PtIdx(vaddr, 2), perms, Ancestor(p, 2));
      if pt == NULL {
        return Crashed;
      }
      TableVisited(old(tree.Keys), t2, tree, f2, |pool.list|, old(Empties()), e2, Empties(), p, pt);
      return Ok(pt);
    }

    /** `pt_map`. It succeeds exactly if the pool has enough tables; then only the target page
        changes. With exactly one table too few it is the last allocation that fails, whose
        result the code does not check (line 253) before it dereferences it. A failure leaves a new
        table linked and empty, exactly unless the pool was empty before. */
    method PtMap(vaddr: int, paddr: int, perms: Perms, mem: MemType) returns (r: Result<()>)
      requires Valid() && paddr % PAGE_SIZE == 0
      modifies pool, pool.blocks, this`tree
      ensures TablesOk()
      ensures var missing := Missing(old(tree), PageOf(vaddr));
              && (r.Ok? <==> missing <= |old(pool.list)|)
              && (r.Crashed? <==> missing == |old(pool.list)| + 1)
              && (r.Err? ==> r.code == ENOMEM)
      ensures r.Ok? ==>
                && Flat() == old(Flat())[PageOf(vaddr) := Leaf(paddr, perms, mem)]
                && Empties() == old(Empties()) - Path(PageOf(vaddr))
                && |pool.list| == |old(pool.list)| - Missing(old(tree), PageOf(vaddr))
                && tree.Keys == old(tree.Keys) + Path(PageOf(vaddr))
      ensures !r.Ok? ==>
                && (Empties() == old(Empties()) <==> old(pool.list) == [])
                && (Empties() <= old(tree.Keys) <==> old(pool.list) == [])
      ensures !r.Ok? ==>
                && Flat() == old(Flat())
                && pool.list == [] && Ancestor(PageOf(vaddr), 1) !in tree
                && Empties() <= old(Empties()) + Path(PageOf(vaddr))
                && old(tree.Keys) <= tree.Keys <= old(tree.Keys) + Path(PageOf(vaddr))
    {
      hide Pages, EmptyNodes, Shape, Partition, FreeList, HomeOk, VirtDisjoint;
      var pt := PathTables(vaddr, perms);
      if !pt.Ok? {
        return pt.Failure();
      }
      ghost var e3 := Empties();
      WriteLeaf(pt.value, vaddr, Pte(true, paddr, perms, mem));
      RemovedTwice(e3, Empties(), Ancestor(PageOf(vaddr), 1), old(Empties()), Path(PageOf(vaddr)));
      return Ok(());
    }

    /** A table on a path exists only if the one above it does. */
    lemma PathClosed(p: Page)
      requires TablesOk()
      ensures tree[Pml4] == pml4 && NodeOk(Mem(), tree, Pml4)
      ensures Ancestor(p, 1) in tree ==> Ancestor(p, 2) in tree
      ensures Ancestor(p, 2) in tree ==> Ancestor(p, 3) in tree && (IsPage(p) ==> Ancestor(p, 3) !in Empties())
      ensures Empties() <= tree.Keys && Pml4 !in Empties()
    {
      assert NodeOk(Mem(), tree, Pml4);
      assert Ancestor(p, 1) in tree ==> NodeOk(Mem(), tree, Ancestor(p, 1));
      assert Ancestor(p, 2) in tree ==> NodeOk(Mem(), tree, Ancestor(p, 2));
      if Ancestor(p, 2) in tree && IsPage(p) {
        assert EntryOk(Mem(), pbase, tree, Ancestor(p, 3), Index(p, 3));
      }
    }

    method WriteLeaf(pt: nat, vaddr: int, e: Pte)
      requires Valid()
      requires Ancestor(PageOf(vaddr), 1) in tree && tree[Ancestor(PageOf(vaddr), 1)] == pt
      requires e.present ==> UpPermits(Mem(), pbase, pml4, tree, Ancestor(PageOf(vaddr), 1), e.perms)
      modifies pool.blocks
      ensures TablesOk()
      ensures Flat() == if e.present then old(Flat())[PageOf(vaddr) := Leaf(e.addr, e.perms, e.mem)]
                        else old(Flat()) - {PageOf(vaddr)}
      ensures Empties() - {Ancestor(PageOf(vaddr), 1)} == old(Empties()) - {Ancestor(PageOf(vaddr), 1)}
      ensures e.present ==> Ancestor(PageOf(vaddr), 1) !in Empties()
    {
      assert NodeOk(Mem(), tree, Ancestor(PageOf(vaddr), 1)) && pt in tree.Values;
      LeafStep(Mem(), pbase, pml4, tree, PageOf(vaddr), e);
      PtInsert(pt, PtIdx(vaddr, 1), e);
    }

    /** `pt_is_empty`. */
    method PtIsEmpty(k: nat) returns (r: bool)
      requires k < pool.blocks.Length && pool.blocks[k].Used?
      ensures r == IsEmpty(Mem()[k].value)
    {
      for i := 0 to NUM_PT_ENTRIES
        invariant forall j :: 0 <= j < i ==> !Mem()[k].value[j].present
      {
        if pool.blocks[k].value[i].present {
          return false;
        }
      }
      return true;
    }

    /** If the table in block `c` is empty, cut it off entry `i` of the table in block `k` and free it. */
    method FreeIfEmpty(k: nat, i: nat, c: nat, ghost n: Node)
      requires Valid()
      requires n in tree && !n.Pt? && i < NUM_PT_ENTRIES && tree[n] == k
      requires Child(n, i) in tree && tree[Child(n, i)] == c
      modifies pool, pool.blocks, this`tree
      ensures TablesOk()
      ensures tree.Keys <= old(tree.Keys)
      ensures forall m :: m in old(tree) && m != Child(n, i) ==> m in tree && tree[m] == old(tree[m])
      ensures Flat() == old(Flat())
      ensures Child(n, i) !in Empties() && Empties() - {n} == old(Empties()) - {n, Child(n, i)}
    {
      assert NodeOk(Mem(), tree, n) && NodeOk(Mem(), tree, Child(n, i));
      var empty := PtIsEmpty(c);
      if empty {
        var e := pool.blocks[k].value[i].(present := false);
        RemoveStep(Mem(), pbase, pml4, tree, pool.list, n, i, e, Link(pool.head));
        assert tree[n] in tree.Values && tree[Child(n, i)] in tree.Values;
        PtInsert(k, i, e);
        pool.Free(c);
        tree := tree - {Child(n, i)};
      }
    }

    /** `pt_unmap`. It succeeds exactly on mapped pages; then only the target page changes and no
        table is left empty that was not so before. A failure changes nothing. */
    method PtUnmap(vaddr: int) returns (r: Result<()>)
      requires Valid()
      modifies pool, pool.blocks, this`tree
      ensures TablesOk()
      ensures r.Ok? <==> PageOf(vaddr) in old(Flat())
      ensures r.Ok? ==>
                && Flat() == old(Flat()) - {PageOf(vaddr)}
                && Empties() == old(Empties())
                && tree.Keys <= old(tree.Keys)
      ensures !r.Ok? ==>
                r == Err(EINVAL) && Mem() == old(Mem()) && tree == old(tree) && pool.list == old(pool.list)
    {
      ghost var p := PageOf(vaddr);
      MappedPages(p);
      var pdpt := PtGet(pml4, PtIdx(vaddr, 4), Pml4);
      if pdpt == NULL {
        return Err(EINVAL);
      }
      var pd := PtGet(pdpt, PtIdx(vaddr, 3), Ancestor(p, 3));
      if pd == NULL {
        return Err(EINVAL);
      }
      var pt := PtGet(pd, PtIdx(vaddr, 2), Ancestor(p, 2));
      if pt == NULL {
        return Err(EINVAL);
      }
      var e := pool.blocks[pt].value[PtIdx(vaddr, 1)];
      if !e.present {
        return Err(EINVAL);
      }
      ghost var e0 := Empties();
      WriteLeaf(pt, vaddr, e.(present := false));
      OnlyOneChanged(e0, Empties(), Ancestor(p, 1), Ancestor(p, 2), Ancestor(p, 3));
      Prune(vaddr, pdpt, pd, pt);
      return Ok(());
    }

    /** When a page is mapped, and that then no table on its path is empty. */
    lemma MappedPages(p: Page)
      requires TablesOk() && IsPage(p)
      ensures Ancestor(p, 4) in tree && tree[Ancestor(p, 4)] == pml4
      ensures Ancestor(p, 1) in tree ==> Ancestor(p, 2) in tree && NodeOk(Mem(), tree, Ancestor(p, 1))
      ensures Ancestor(p, 2) in tree ==> Ancestor(p, 3) in tree
      ensures p in Flat() <==>
                Ancestor(p, 1) in tree && Mem()[tree[Ancestor(p, 1)]].value[Index(p, 1)].present
      ensures p in Flat() ==> forall level :: 1 <= level <= 3 ==> Ancestor(p, level) !in Empties()
    {
      PathClosed(p);
      PagesAreLeaves(Mem(), pbase, pml4, tree);
      if p in Flat() {
        PathNotEmpty(p);
      }
    }

    /** On the path of a mapped page, no table is empty. */
    lemma PathNotEmpty(p: Page)
      requires TablesOk() && IsPage(p) && Ancestor(p, 1) in tree
      requires LeafAt(Mem(), tree, p).Some?
      ensures Ancestor(p, 2) in tree && Ancestor(p, 3) in tree
      ensures forall level :: 1 <= level <= 3 ==> Ancestor(p, level) !in Empties()
    {
      PathClosed(p);
      assert EntryOk(Mem(), pbase, tree, Ancestor(p, 2), Index(p, 2));
      assert EntryOk(Mem(), pbase, tree, Ancestor(p, 3), Index(p, 3));
    }

    /** The second half of `pt_unmap`: free the tables on the path that have become empty. */
    method Prune(vaddr: int, pdpt: nat, pd: nat, pt: nat)
      requires Valid()
      requires var p := PageOf(vaddr);
               && tree[Pml4] == pml4
               && Ancestor(p, 1) in tree && tree[Ancestor(p, 1)] == pt
               && Ancestor(p, 2) in tree && tree[Ancestor(p, 2)] == pd
               && Ancestor(p, 3) in tree && tree[Ancestor(p, 3)] == pdpt
      requires Ancestor(PageOf(vaddr), 2) !in Empties() && Ancestor(PageOf(vaddr), 3) !in Empties()
      modifies pool, pool.blocks, this`tree
      ensures TablesOk()
      ensures Flat() == old(Flat())
      ensures tree.Keys <= old(tree.Keys)
      ensures Empties() == old(Empties()) - {Ancestor(PageOf(vaddr), 1)}
    {
      ghost var p, e0 := PageOf(vaddr), Empties();
      FreeIfEmpty(pd, PtIdx(vaddr, 2), pt, Ancestor(p, 2));
      ghost var e1 := Empties();
      FreeIfEmpty(pdpt, PtIdx(vaddr, 3), pd, Ancestor(p, 3));
      ghost var e2 := Empties();
      FreeIfEmpty(pml4, PtIdx(vaddr, 4), pdpt, Pml4);
      EmptiesAlongPrune(e0, e1, e2, Empties(), Ancestor(p, 1), Ancestor(p, 2), Ancestor(p, 3), Pml4);
    }
  }
}
