/** The single writes out of which mapping and unmapping are made, and what each keeps:
    the shape of the tree, and every leaf except the one that is written. */
module PageSteps {
  import opened Pools
  import opened PageTree

  function WithEntry(mem: Memory, k: nat, i: nat, e: Pte): Memory
    requires k < |mem| && mem[k].Used? && i < NUM_PT_ENTRIES
  {
    mem[k := Used(mem[k].value[i := e])]
  }

  /** The entry that leads to `n` (in the table of its parent) permits `perms`. */
  ghost predicate UpPermits(mem: Memory, pbase: int, root: nat, tree: Tree, n: Node, perms: Perms)
    requires Shape(mem, pbase, root, tree) && n in tree
  {
    assert NodeOk(mem, tree, n);
    !n.Pml4? ==>
      (assert NodeOk(mem, tree, Parent(n));
       mem[tree[Parent(n)]].value[Slot(n)].perms.Permits(perms))
  }

  lemma ChildOfParent(m: Node, j: nat)
    requires !m.Pt? && j < NUM_PT_ENTRIES
    ensures Parent(Child(m, j)) == m && Slot(Child(m, j)) == j
  {
  }

  /** Rewrite one entry: either a leaf entry, or the entry of an existing child so that it permits more. */
  lemma UpdateEntry(mem: Memory, pbase: int, root: nat, tree: Tree, n: Node, i: nat, e: Pte)
    requires Shape(mem, pbase, root, tree)
    requires n in tree && i < NUM_PT_ENTRIES && NodeOk(mem, tree, n)
    requires e.present ==> UpPermits(mem, pbase, root, tree, n, e.perms)
    requires !n.Pt? ==>
               && Child(n, i) in tree && e.present && e.addr == mem[tree[n]].value[i].addr
               && e.perms.Permits(mem[tree[n]].value[i].perms)
    ensures Shape(WithEntry(mem, tree[n], i, e), pbase, root, tree)
  {
    var mem' := WithEntry(mem, tree[n], i, e);
    forall m | m in tree
      ensures NodeOk(mem', tree, m)
    {
      assert NodeOk(mem, tree, m);
    }
    forall m, j | m in tree && !m.Pt? && 0 <= j < NUM_PT_ENTRIES
      ensures EntryOk(mem', pbase, tree, m, j)
    {
      assert EntryOk(mem, pbase, tree, m, j);
      ChildOfParent(m, j);
      if Child(m, j) in tree && Child(m, j) != n {
        assert tree[Child(m, j)] != tree[n];
      }
    }
  }

  /** Hang a fresh, zeroed table under entry `i` of `n`. */
  lemma AddTable(mem: Memory, pbase: int, root: nat, tree: Tree, n: Node, i: nat, b: nat, perms: Perms)
    requires Shape(mem, pbase, root, tree)
    requires n in tree && !n.Pt? && i < NUM_PT_ENTRIES && NodeOk(mem, tree, n)
    requires Child(n, i) !in tree
    requires b < |mem| && b !in tree.Values
    requires UpPermits(mem, pbase, root, tree, n, perms)
    ensures b != tree[n]
    ensures Shape(WithEntry(mem[b := Used(ZERO_TABLE)], tree[n], i, Pte(true, AddrOf(pbase, b), perms, WriteBack)),
                  pbase, root, tree[Child(n, i) := b])
  {
    var c := Child(n, i);
    var tree' := tree[c := b];
    assert tree[n] in tree.Values;
    var mem' := WithEntry(mem[b := Used(ZERO_TABLE)], tree[n], i, Pte(true, AddrOf(pbase, b), perms, WriteBack));
    forall m | m in tree'
      ensures NodeOk(mem', tree', m)
    {
      ChildOfParent(n, i);
      assert m in tree ==> NodeOk(mem, tree, m);
    }
    forall m | m in tree
      ensures tree[m] != b
    {
      assert tree[m] in tree.Values;
    }
    forall m, j | m in tree' && !m.Pt? && 0 <= j < NUM_PT_ENTRIES
      ensures EntryOk(mem', pbase, tree', m, j)
    {
      ChildOfParent(m, j);
      ChildOfParent(n, i);
      if m == c {
        // A child of the new table would have had its parent in the tree.
        assert Child(c, j) in tree ==> NodeOk(mem, tree, Child(c, j));
        assert c != Child(c, j);
      } else {
        assert EntryOk(mem, pbase, tree, m, j);
        assert Child(m, j) in tree && Child(m, j) != n ==> tree[Child(m, j)] != tree[n];
      }
    }
  }

  /** Cut the empty table under entry `i` of `n` out of the tree; its block may then become anything. */
  lemma RemoveTable(mem: Memory, pbase: int, root: nat, tree: Tree, n: Node, i: nat, e: Pte, freed: Block<Table>)
    requires Shape(mem, pbase, root, tree)
    requires n in tree && !n.Pt? && i < NUM_PT_ENTRIES && NodeOk(mem, tree, n)
    requires Child(n, i) in tree && NodeOk(mem, tree, Child(n, i)) && IsEmpty(mem[tree[Child(n, i)]].value)
    requires !e.present
    ensures Shape(WithEntry(mem, tree[n], i, e)[tree[Child(n, i)] := freed], pbase, root, tree - {Child(n, i)})
  {
    var c := Child(n, i);
    var tree' := tree - {c};
    var mem' := WithEntry(mem, tree[n], i, e)[tree[c] := freed];
    assert c != n;
    ChildOfParent(n, i);
    forall m | m in tree'
      ensures NodeOk(mem', tree', m)
    {
      assert NodeOk(mem, tree, m);
      assert tree[m] != tree[c];
      if !c.Pt? && !m.Pml4? {
        EmptyHasNoChild(mem, pbase, root, tree, c, Slot(m));
      }
    }
    forall m, j | m in tree' && !m.Pt? && 0 <= j < NUM_PT_ENTRIES
      ensures EntryOk(mem', pbase, tree', m, j)
    {
      ChildOfParent(m, j);
      assert EntryOk(mem, pbase, tree, m, j);
      assert tree[m] != tree[c];
      if Child(m, j) in tree {
        assert Child(m, j) != n ==> tree[Child(m, j)] != tree[n];
        assert Child(m, j) != c ==> tree[Child(m, j)] != tree[c];
      }
    }
  }

  lemma EmptyHasNoChild(mem: Memory, pbase: int, root: nat, tree: Tree, n: Node, i: nat)
    requires Shape(mem, pbase, root, tree)
    requires n in tree && !n.Pt? && i < NUM_PT_ENTRIES && NodeOk(mem, tree, n)
    requires IsEmpty(mem[tree[n]].value)
    ensures Child(n, i) !in tree
  {
    assert EntryOk(mem, pbase, tree, n, i);
  }

  predicate IsEmpty(table: Table)
  {
    forall j :: 0 <= j < NUM_PT_ENTRIES ==> !table[j].present
  }

  /** The tables, other than the root, that hold no entry. */
  ghost function EmptyNodes(mem: Memory, tree: Tree): set<Node>
  {
    set n | n in tree && n != Pml4 && tree[n] < |mem| && mem[tree[n]].Used? && IsEmpty(mem[tree[n]].value)
  }

  // ----- The flat map ------------------------------------------------------------------------

  /** What the processor sees: every page whose walk succeeds, with the result of the walk. */
  ghost function Pages(mem: Memory, pbase: int, root: nat): imap<Page, Leaf>
  {
    imap p: Page | IsPage(p) && Walk(mem, pbase, root, p, 4).Some? :: Walk(mem, pbase, root, p, 4).value
  }

  ghost function Leaves(mem: Memory, tree: Tree): imap<Page, Leaf>
  {
    imap p: Page | IsPage(p) && LeafAt(mem, tree, p).Some? :: LeafAt(mem, tree, p).value
  }

  lemma PagesAreLeaves(mem: Memory, pbase: int, root: nat, tree: Tree)
    requires Shape(mem, pbase, root, tree)
    ensures Pages(mem, pbase, root) == Leaves(mem, tree)
  {
    forall p: Page | IsPage(p)
      ensures Walk(mem, pbase, root, p, 4) == LeafAt(mem, tree, p)
    {
      WalkFindsLeaf(mem, pbase, root, tree, p, 4);
    }
  }

  lemma UpperEntryKeepsLeaves(mem: Memory, pbase: int, root: nat, tree: Tree, n: Node, i: nat, e: Pte)
    requires Shape(mem, pbase, root, tree)
    requires n in tree && !n.Pt? && i < NUM_PT_ENTRIES && NodeOk(mem, tree, n)
    ensures Leaves(WithEntry(mem, tree[n], i, e), tree) == Leaves(mem, tree)
    ensures e.present ==> EmptyNodes(WithEntry(mem, tree[n], i, e), tree) == EmptyNodes(mem, tree) - {n}
  {
    var mem' := WithEntry(mem, tree[n], i, e);
    forall p: Page | IsPage(p)
      ensures LeafAt(mem', tree, p) == LeafAt(mem, tree, p)
    {
      var m := Ancestor(p, 1);
      assert m in tree ==> tree[m] != tree[n];
    }
    OtherTables(mem, tree, n, i, e);
  }

  /** A write to the table of `n` does not reach any other table. */
  lemma OtherTables(mem: Memory, tree: Tree, n: Node, i: nat, e: Pte)
    requires forall m, n :: m in tree && n in tree && tree[m] == tree[n] ==> m == n
    requires n in tree && i < NUM_PT_ENTRIES && NodeOk(mem, tree, n)
    ensures EmptyNodes(WithEntry(mem, tree[n], i, e), tree) - {n} == EmptyNodes(mem, tree) - {n}
    ensures e.present ==> n !in EmptyNodes(WithEntry(mem, tree[n], i, e), tree)
  {
    var mem' := WithEntry(mem, tree[n], i, e);
    forall m | m in tree && m != n
      ensures tree[m] < |mem| ==> mem'[tree[m]] == mem[tree[m]]
    {
      assert tree[m] != tree[n];
    }
    assert mem'[tree[n]].value[i] == e;
  }

  lemma LeafEntryIsLeaf(mem: Memory, pbase: int, root: nat, tree: Tree, p: Page, e: Pte)
    requires Shape(mem, pbase, root, tree) && IsPage(p)
    requires Ancestor(p, 1) in tree && NodeOk(mem, tree, Ancestor(p, 1))
    ensures Leaves(WithEntry(mem, tree[Ancestor(p, 1)], Index(p, 1), e), tree) ==
              if e.present then Leaves(mem, tree)[p := Leaf(e.addr, e.perms, e.mem)]
              else Leaves(mem, tree) - {p}
  {
    var n := Ancestor(p, 1);
    var mem' := WithEntry(mem, tree[n], Index(p, 1), e);
    forall w: Page | IsPage(w) && w != p
      ensures LeafAt(mem', tree, w) == LeafAt(mem, tree, w)
    {
      var m := Ancestor(w, 1);
      assert m in tree && m != n ==> tree[m] != tree[n];
    }
    var after := if e.present then Leaves(mem, tree)[p := Leaf(e.addr, e.perms, e.mem)]
                 else Leaves(mem, tree) - {p};
    forall w: Page | IsPage(w)
      ensures w in Leaves(mem', tree) <==> w in after
      ensures w in after ==> Leaves(mem', tree)[w] == after[w]
    {
      assert w != p ==> LeafAt(mem', tree, w) == LeafAt(mem, tree, w);
    }
  }

  lemma AddTableKeepsLeaves(mem: Memory, pbase: int, root: nat, tree: Tree, n: Node, i: nat, b: nat, e: Pte)
    requires Shape(mem, pbase, root, tree)
    requires n in tree && !n.Pt? && i < NUM_PT_ENTRIES && NodeOk(mem, tree, n)
    requires Child(n, i) !in tree && b < |mem| && b !in tree.Values && e.present
    ensures b != tree[n]
    ensures Leaves(WithEntry(mem[b := Used(ZERO_TABLE)], tree[n], i, e), tree[Child(n, i) := b]) == Leaves(mem, tree)
    ensures EmptyNodes(WithEntry(mem[b := Used(ZERO_TABLE)], tree[n], i, e), tree[Child(n, i) := b])
              == EmptyNodes(mem, tree) - {n} + {Child(n, i)}
  {
    var c := Child(n, i);
    var tree' := tree[c := b];
    assert tree[n] in tree.Values;
    var mem' := WithEntry(mem[b := Used(ZERO_TABLE)], tree[n], i, e);
    forall m | m in tree && m != n
      ensures tree[m] != b && tree[m] != tree[n]
    {
      assert tree[m] in tree.Values;
    }
    forall p: Page | IsPage(p)
      ensures LeafAt(mem', tree', p) == LeafAt(mem, tree, p)
    {
    }
    assert mem'[tree[n]].value[i] == e;
    assert EmptyNodes(mem', tree') == EmptyNodes(mem, tree) - {n} + {c};
  }

  lemma RemoveTableKeepsLeaves(mem: Memory, pbase: int, root: nat, tree: Tree, n: Node, i: nat, e: Pte,
                               freed: Block<Table>)
    requires Shape(mem, pbase, root, tree)
    requires n in tree && !n.Pt? && i < NUM_PT_ENTRIES && NodeOk(mem, tree, n)
    requires Child(n, i) in tree && NodeOk(mem, tree, Child(n, i)) && IsEmpty(mem[tree[Child(n, i)]].value)
    ensures Leaves(WithEntry(mem, tree[n], i, e)[tree[Child(n, i)] := freed], tree - {Child(n, i)}) == Leaves(mem, tree)
    ensures EmptyNodes(WithEntry(mem, tree[n], i, e)[tree[Child(n, i)] := freed], tree - {Child(n, i)}) - {n}
              == EmptyNodes(mem, tree) - {n, Child(n, i)}
  {
    var c := Child(n, i);
    var tree' := tree - {c};
    var mem' := WithEntry(mem, tree[n], i, e)[tree[c] := freed];
    assert c != n;
    forall m | m in tree' && m != n
      ensures tree[m] < |mem| ==> mem'[tree[m]] == mem[tree[m]]
    {
      assert tree[m] != tree[n] && tree[m] != tree[c];
    }
    forall p: Page | IsPage(p)
      ensures LeafAt(mem', tree', p) == LeafAt(mem, tree, p)
    {
      var m := Ancestor(p, 1);
      assert m == c ==> !mem[tree[c]].value[Index(p, 1)].present;
    }
  }

  // ----- Whole steps ---------------------------------------------------------------------------

  /** Blocks that hold a table of the tree are exactly the blocks that are not free. */
  ghost predicate Partition(tree: Tree, list: seq<nat>, n: nat)
  {
    forall b: nat :: b < n ==> (b in tree.Values <==> b !in list)
  }

  lemma InitialTable(mem: Memory, pbase: int, b: nat, list: seq<nat>)
    requires b < |mem| && mem[b] == Used(ZERO_TABLE)
    requires forall k: nat :: k < |mem| ==> (k == b <==> k !in list)
    ensures Shape(mem, pbase, b, map[Pml4 := b]) && Partition(map[Pml4 := b], list, |mem|)
    ensures Pages(mem, pbase, b) == imap[] && EmptyNodes(mem, map[Pml4 := b]) == {}
  {
    var tree := map[Pml4 := b];
    assert forall i :: 0 <= i < NUM_PT_ENTRIES ==> EntryOk(mem, pbase, tree, Pml4, i);
    PagesAreLeaves(mem, pbase, b, tree);
  }

  lemma WidenStep(mem: Memory, pbase: int, root: nat, tree: Tree, n: Node, i: nat, perms: Perms)
    requires Shape(mem, pbase, root, tree)
    requires n in tree && !n.Pt? && i < NUM_PT_ENTRIES && NodeOk(mem, tree, n)
    requires Child(n, i) in tree
    requires UpPermits(mem, pbase, root, tree, n, perms)
    ensures var e := mem[tree[n]].value[i];
            var mem' := WithEntry(mem, tree[n], i, e.(perms := e.perms.Or(perms)));
            && Shape(mem', pbase, root, tree)
            && Pages(mem', pbase, root) == Pages(mem, pbase, root)
            && EmptyNodes(mem', tree) == EmptyNodes(mem, tree) - {n}
            && UpPermits(mem', pbase, root, tree, Child(n, i), perms)
  {
    var e := mem[tree[n]].value[i];
    var e' := e.(perms := e.perms.Or(perms));
    assert EntryOk(mem, pbase, tree, n, i);
    ChildOfParent(n, i);
    if !n.Pml4? {
      ChildOfParent(Parent(n), Slot(n));
      assert EntryOk(mem, pbase, tree, Parent(n), Slot(n));
    }
    UpdateEntry(mem, pbase, root, tree, n, i, e');
    UpperEntryKeepsLeaves(mem, pbase, root, tree, n, i, e');
    PagesAreLeaves(mem, pbase, root, tree);
    PagesAreLeaves(WithEntry(mem, tree[n], i, e'), pbase, root, tree);
  }

  lemma AddStep(mem: Memory, pbase: int, root: nat, tree: Tree, list: seq<nat>, n: Node, i: nat, perms: Perms)
    requires Shape(mem, pbase, root, tree) && Partition(tree, list, |mem|)
    requires n in tree && !n.Pt? && i < NUM_PT_ENTRIES && NodeOk(mem, tree, n)
    requires Child(n, i) !in tree
    requires list != [] && list[0] < |mem| && list[0] !in list[1..]
    requires UpPermits(mem, pbase, root, tree, n, perms)
    ensures tree[n] != list[0] && tree[n] !in list
    ensures var mem' := WithEntry(mem[list[0] := Used(ZERO_TABLE)], tree[n], i,
                                  Pte(true, AddrOf(pbase, list[0]), perms, WriteBack));
            var tree' := tree[Child(n, i) := list[0]];
            && Shape(mem', pbase, root, tree') && Partition(tree', list[1..], |mem|)
            && Pages(mem', pbase, root) == Pages(mem, pbase, root)
            && EmptyNodes(mem', tree') == EmptyNodes(mem, tree) - {n} + {Child(n, i)}
            && UpPermits(mem', pbase, root, tree', Child(n, i), perms)
  {
    var b := list[0];
    assert b in list;
    assert tree[n] in tree.Values;
    var e := Pte(true, AddrOf(pbase, b), perms, WriteBack);
    ChildOfParent(n, i);
    AddTable(mem, pbase, root, tree, n, i, b, perms);
    AddTableKeepsLeaves(mem, pbase, root, tree, n, i, b, e);
    PagesAreLeaves(mem, pbase, root, tree);
    PagesAreLeaves(WithEntry(mem[b := Used(ZERO_TABLE)], tree[n], i, e), pbase, root, tree[Child(n, i) := b]);
    PartitionAfterAdd(tree, list, Child(n, i), |mem|);
  }

  lemma PartitionAfterAdd(tree: Tree, list: seq<nat>, c: Node, n: nat)
    requires Partition(tree, list, n) && c !in tree && list != [] && list[0] !in list[1..]
    ensures Partition(tree[c := list[0]], list[1..], n)
  {
    var tree' := tree[c := list[0]];
    forall b: nat | b < n
      ensures b in tree'.Values <==> b !in list[1..]
    {
      assert list == [list[0]] + list[1..];
      assert tree'[c] == list[0];
      assert b in list <==> b == list[0] || b in list[1..];
      if b in tree.Values {
        var m :| m in tree && tree[m] == b;
        assert m in tree' && tree'[m] == b;
      }
    }
  }

  lemma LeafStep(mem: Memory, pbase: int, root: nat, tree: Tree, p: Page, e: Pte)
    requires Shape(mem, pbase, root, tree) && IsPage(p)
    requires Ancestor(p, 1) in tree && NodeOk(mem, tree, Ancestor(p, 1))
    requires e.present ==> UpPermits(mem, pbase, root, tree, Ancestor(p, 1), e.perms)
    ensures var n := Ancestor(p, 1);
            var mem' := WithEntry(mem, tree[n], Index(p, 1), e);
            && Shape(mem', pbase, root, tree)
            && Pages(mem', pbase, root) == (if e.present then Pages(mem, pbase, root)[p := Leaf(e.addr, e.perms, e.mem)]
                                            else Pages(mem, pbase, root) - {p})
            && EmptyNodes(mem', tree) - {n} == EmptyNodes(mem, tree) - {n}
            && (e.present ==> n !in EmptyNodes(mem', tree))
  {
    var n := Ancestor(p, 1);
    UpdateEntry(mem, pbase, root, tree, n, Index(p, 1), e);
    LeafEntryIsLeaf(mem, pbase, root, tree, p, e);
    OtherTables(mem, tree, n, Index(p, 1), e);
    PagesAreLeaves(mem, pbase, root, tree);
    PagesAreLeaves(WithEntry(mem, tree[n], Index(p, 1), e), pbase, root, tree);
  }

  lemma RemoveStep(mem: Memory, pbase: int, root: nat, tree: Tree, list: seq<nat>, n: Node, i: nat, e: Pte,
                   freed: Block<Table>)
    requires Shape(mem, pbase, root, tree) && Partition(tree, list, |mem|)
    requires n in tree && !n.Pt? && i < NUM_PT_ENTRIES && NodeOk(mem, tree, n)
    requires Child(n, i) in tree && NodeOk(mem, tree, Child(n, i)) && IsEmpty(mem[tree[Child(n, i)]].value)
    requires !e.present
    ensures tree[Child(n, i)] !in list && tree[n] != tree[Child(n, i)]
    ensures var c := Child(n, i);
            var mem' := WithEntry(mem, tree[n], i, e)[tree[c] := freed];
            var tree' := tree - {c};
            && Shape(mem', pbase, root, tree') && Partition(tree', [tree[c]] + list, |mem|)
            && Pages(mem', pbase, root) == Pages(mem, pbase, root)
            && EmptyNodes(mem', tree') - {n} == EmptyNodes(mem, tree) - {n, c}
  {
    var c := Child(n, i);
    assert tree[c] in tree.Values;
    RemoveTable(mem, pbase, root, tree, n, i, e, freed);
    RemoveTableKeepsLeaves(mem, pbase, root, tree, n, i, e, freed);
    PagesAreLeaves(mem, pbase, root, tree);
    PagesAreLeaves(WithEntry(mem, tree[n], i, e)[tree[c] := freed], pbase, root, tree - {c});
    PartitionAfterRemove(tree, list, c, |mem|);
  }

  lemma PartitionAfterRemove(tree: Tree, list: seq<nat>, c: Node, n: nat)
    requires Partition(tree, list, n) && c in tree
    requires forall m :: m in tree && tree[m] == tree[c] ==> m == c
    ensures Partition(tree - {c}, [tree[c]] + list, n)
  {
    var tree' := tree - {c};
    forall b: nat | b < n
      ensures b in tree'.Values <==> b !in [tree[c]] + list
    {
      if b in tree.Values && b != tree[c] {
        var m :| m in tree && tree[m] == b;
        assert m in tree' && tree'[m] == b;
      }
    }
  }
}
