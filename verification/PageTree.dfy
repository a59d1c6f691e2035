/** Four-level page tables as values: the entries, the walk that the processor performs, and the
    invariant under which the tables behave like one flat map from page numbers to frames. */
module PageTree {
  import opened Arith
  import opened Common
  import opened Pools

  const PAGE_SIZE := 0x1000
  const NUM_PT_ENTRIES := 512
  const NUM_PAGES := 0x10_0000_0000 // Page numbers are bits 12 to 47 of an address.

  datatype MemType = WriteBack | WriteThrough | Uncacheable | StrongUncacheable

  /** The PT_FLAG_RW and PT_FLAG_US bits. */
  datatype Perms = Perms(rw: bool, us: bool) {
    predicate Permits(other: Perms) { (other.rw ==> rw) && (other.us ==> us) }

    function Or(other: Perms): Perms { Perms(rw || other.rw, us || other.us) }

    function And(other: Perms): Perms { Perms(rw && other.rw, us && other.us) }
  }

  datatype Pte = Pte(present: bool, addr: int, perms: Perms, mem: MemType)

  const ZERO_PTE := Pte(false, 0, Perms(false, false), WriteBack)

  type Table = t: seq<Pte> | |t| == NUM_PT_ENTRIES witness seq(NUM_PT_ENTRIES, _ => ZERO_PTE)

  const ZERO_TABLE: Table := seq(NUM_PT_ENTRIES, _ => ZERO_PTE)

  type Memory = seq<Block<Table>>

  /** What a successful walk yields: the frame, the permissions that hold across all four levels
      (a processor grants an access only if every level grants it), and the memory type. */
  datatype Leaf = Leaf(addr: int, perms: Perms, mem: MemType)

  // ----- Addresses ---------------------------------------------------------------------------

  /** The number of pages below one entry of a table at `level`. */
  function Span(level: nat): nat
    requires 1 <= level <= 4
  {
    if level == 1 then 1 else if level == 2 then 0x200 else if level == 3 then 0x4_0000 else 0x800_0000
  }

  /** PT_IDX: nine bits of the address, starting at bit 12, 21, 30 or 39. */
  function PtIdx(vaddr: int, level: nat): (i: nat)
    requires 1 <= level <= 4
    ensures i < NUM_PT_ENTRIES
  {
    vaddr / (PAGE_SIZE * Span(level)) % NUM_PT_ENTRIES
  }

  /** A page, named by the four indices of the path that a walk takes to it. */
  datatype Page = Page(i4: nat, i3: nat, i2: nat, i1: nat)

  predicate IsPage(p: Page)
  {
    p.i4 < NUM_PT_ENTRIES && p.i3 < NUM_PT_ENTRIES && p.i2 < NUM_PT_ENTRIES && p.i1 < NUM_PT_ENTRIES
  }

  function PageOf(vaddr: int): (p: Page)
    ensures IsPage(p)
  {
    Page(PtIdx(vaddr, 4), PtIdx(vaddr, 3), PtIdx(vaddr, 2), PtIdx(vaddr, 1))
  }

  function Index(p: Page, level: nat): nat
    requires 1 <= level <= 4
  {
    if level == 4 then p.i4 else if level == 3 then p.i3 else if level == 2 then p.i2 else p.i1
  }

  /** Bits 12 to 47 of an address. */
  function Vpn(vaddr: int): nat { vaddr / PAGE_SIZE % NUM_PAGES }

  function VpnOf(p: Page): nat
  {
    ((p.i4 * 512 + p.i3) * 512 + p.i2) * 512 + p.i1
  }

  /** The path spells the page number: two addresses share their path exactly if they share bits 12 to 47. */
  lemma PageSpellsVpn(vaddr: int)
    ensures VpnOf(PageOf(vaddr)) == Vpn(vaddr)
  {
    var p, vpn := PageOf(vaddr), Vpn(vaddr);
    forall level | 1 <= level <= 4
      ensures Index(p, level) == vpn / Span(level) % NUM_PT_ENTRIES
    {
      PtIdxIgnoresHighBits(vaddr, level);
    }
    IndicesSpell(vpn, p);
  }

  lemma SamePathIsSamePage(v: int, w: int)
    ensures PageOf(v) == PageOf(w) <==> Vpn(v) == Vpn(w)
  {
    PageSpellsVpn(v);
    PageSpellsVpn(w);
    VpnIsInjective(PageOf(v), PageOf(w));
  }

  lemma VpnIsInjective(p: Page, q: Page)
    requires IsPage(p) && IsPage(q)
    ensures VpnOf(p) == VpnOf(q) ==> p == q
  {
    if VpnOf(p) == VpnOf(q) {
      LastDigit((p.i4 * 512 + p.i3) * 512 + p.i2, p.i1, (q.i4 * 512 + q.i3) * 512 + q.i2, q.i1);
      LastDigit(p.i4 * 512 + p.i3, p.i2, q.i4 * 512 + q.i3, q.i2);
      LastDigit(p.i4, p.i3, q.i4, q.i3);
    }
  }

  lemma LastDigit(a: nat, d: nat, b: nat, e: nat)
    requires d < 512 && e < 512 && a * 512 + d == b * 512 + e
    ensures a == b && d == e
  {
  }

  lemma PtIdxIgnoresHighBits(vaddr: int, level: nat)
    requires 1 <= level <= 4
    ensures PtIdx(vaddr, level) == Vpn(vaddr) / Span(level) % NUM_PT_ENTRIES
  {
    DivDiv(vaddr, PAGE_SIZE, Span(level));
    IndexIgnoresHighBits(vaddr / PAGE_SIZE, Span(level), 0x800_0000 / Span(level));
  }

  lemma IndexIgnoresHighBits(x: int, s: nat, m: nat)
    requires s > 0 && m * s == 0x800_0000
    ensures x / s % NUM_PT_ENTRIES == x % NUM_PAGES / s % NUM_PT_ENTRIES
  {
    var q, r := x / NUM_PAGES, x % NUM_PAGES;
    GroupProduct(q, m, s);
    MultipleOut(q * 512, m, r, s);
    ShiftBy512(q, m, r / s);
  }

  lemma GroupProduct(q: int, m: nat, s: nat)
    requires m * s == 0x800_0000
    ensures q * NUM_PAGES == q * 512 * m * s
  {
    assert q * 512 * m * s == q * 512 * (m * s);
  }

  lemma ShiftBy512(q: int, m: nat, i: int)
    ensures (q * 512 * m + i) % NUM_PT_ENTRIES == i % NUM_PT_ENTRIES
  {
    assert q * 512 * m == 512 * (q * m);
  }

  lemma IndicesSpell(vpn: nat, p: Page)
    requires vpn < NUM_PAGES
    requires forall level :: 1 <= level <= 4 ==> Index(p, level) == vpn / Span(level) % NUM_PT_ENTRIES
    ensures VpnOf(p) == vpn
  {
    var a := vpn / 512;
    var b := a / 512;
    assert vpn / 0x4_0000 == b && vpn / 0x800_0000 == b / 512 < 512;
    assert Index(p, 1) == vpn / 1 % 512 && Index(p, 2) == a % 512;
    assert Index(p, 3) == b % 512 && Index(p, 4) == b / 512;
  }

  // ----- The walk ----------------------------------------------------------------------------

  /** The pool block at a physical address; the pool starts at `pbase`. */
  function BlockAt(mem: Memory, pbase: int, addr: int): Option<nat>
  {
    if pbase <= addr && (addr - pbase) % PAGE_SIZE == 0 && (addr - pbase) / PAGE_SIZE < |mem|
    then Some((addr - pbase) / PAGE_SIZE) else None
  }

  function AddrOf(pbase: int, k: nat): int { pbase + PAGE_SIZE * k }

  /** The processor's walk for page `p`, starting in the table in block `k` at `level`. */
  function Walk(mem: Memory, pbase: int, k: nat, p: Page, level: nat): Option<Leaf>
    requires 1 <= level <= 4 && IsPage(p)
    decreases level
  {
    if k >= |mem| || mem[k].Link? then None else
    var e := mem[k].value[Index(p, level)];
    if !e.present then None
    else if level == 1 then Some(Leaf(e.addr, e.perms, e.mem))
    else
      match BlockAt(mem, pbase, e.addr)
      case None => None
      case Some(next) =>
        match Walk(mem, pbase, next, p, level - 1)
        case None => None
        case Some(leaf) => Some(leaf.(perms := leaf.perms.And(e.perms)))
  }

  // ----- The tree of tables --------------------------------------------------------------------

  /** A place for a table, named by the indices that lead to it from the root. */
  datatype Node = Pml4 | Pdpt(i4: nat) | Pd(i4: nat, i3: nat) | Pt(i4: nat, i3: nat, i2: nat)

  predicate IsNode(n: Node)
  {
    match n
    case Pml4 => true
    case Pdpt(i4) => i4 < NUM_PT_ENTRIES
    case Pd(i4, i3) => i4 < NUM_PT_ENTRIES && i3 < NUM_PT_ENTRIES
    case Pt(i4, i3, i2) => i4 < NUM_PT_ENTRIES && i3 < NUM_PT_ENTRIES && i2 < NUM_PT_ENTRIES
  }

  function Child(n: Node, i: nat): Node
    requires !n.Pt?
  {
    match n
    case Pml4 => Pdpt(i)
    case Pdpt(i4) => Pd(i4, i)
    case Pd(i4, i3) => Pt(i4, i3, i)
  }

  function Parent(n: Node): Node
    requires !n.Pml4?
  {
    match n
    case Pdpt(_) => Pml4
    case Pd(i4, _) => Pdpt(i4)
    case Pt(i4, i3, _) => Pd(i4, i3)
  }

  /** The index at which the parent of `n` refers to it. */
  function Slot(n: Node): nat
    requires !n.Pml4?
  {
    match n
    case Pdpt(i4) => i4
    case Pd(_, i3) => i3
    case Pt(_, _, i2) => i2
  }

  /** The table at `level` on the path of page `p`. */
  function Ancestor(p: Page, level: nat): Node
    requires 1 <= level <= 4
  {
    if level == 4 then Pml4
    else if level == 3 then Pdpt(p.i4)
    else if level == 2 then Pd(p.i4, p.i3)
    else Pt(p.i4, p.i3, p.i2)
  }

  /** Where the tables are: `tree` maps each place to the block that holds its table. */
  type Tree = map<Node, nat>

  /** The entry for child `i` of the table at `n` is present exactly if the child exists, and then
      points to the child's block and permits at least what the child's own entries permit. */
  ghost predicate EntryOk(mem: Memory, pbase: int, tree: Tree, n: Node, i: nat)
    requires !n.Pt? && i < NUM_PT_ENTRIES
  {
    && n in tree && tree[n] < |mem| && mem[tree[n]].Used?
    && var e := mem[tree[n]].value[i];
    && (e.present <==> Child(n, i) in tree)
    && (e.present ==>
          && e.addr == AddrOf(pbase, tree[Child(n, i)])
          && tree[Child(n, i)] < |mem| && mem[tree[Child(n, i)]].Used?
          && Below(mem[tree[Child(n, i)]].value, e.perms))
  }

  ghost predicate Below(table: Table, perms: Perms)
  {
    forall j :: 0 <= j < NUM_PT_ENTRIES && table[j].present ==> perms.Permits(table[j].perms)
  }

  ghost predicate NodeOk(mem: Memory, tree: Tree, n: Node)
  {
    && n in tree && IsNode(n)
    && tree[n] < |mem| && mem[tree[n]].Used?
    && (!n.Pml4? ==> Parent(n) in tree)
  }

  ghost predicate Shape(mem: Memory, pbase: int, root: nat, tree: Tree)
  {
    && Pml4 in tree && tree[Pml4] == root
    && (forall n {:trigger NodeOk(mem, tree, n)} :: n in tree ==> NodeOk(mem, tree, n))
    && (forall m, n {:trigger tree[m], tree[n]} :: m in tree && n in tree && tree[m] == tree[n] ==> m == n)
    && (forall n, i {:trigger EntryOk(mem, pbase, tree, n, i)} ::
          n in tree && !n.Pt? && 0 <= i < NUM_PT_ENTRIES ==> EntryOk(mem, pbase, tree, n, i))
  }

  /** The flat view: the leaf entry of `p` in the tree. */
  ghost function LeafAt(mem: Memory, tree: Tree, p: Page): Option<Leaf>
    requires IsPage(p)
  {
    var n := Ancestor(p, 1);
    if n in tree && tree[n] < |mem| && mem[tree[n]].Used? && mem[tree[n]].value[Index(p, 1)].present then
      var e := mem[tree[n]].value[Index(p, 1)];
      Some(Leaf(e.addr, e.perms, e.mem))
    else None
  }

  /** In a well-shaped tree the walk through all levels finds exactly the leaf entry, with exactly
      the leaf's own permissions. */
  lemma {:induction false} WalkFindsLeaf(mem: Memory, pbase: int, root: nat, tree: Tree, p: Page, level: nat)
    requires Shape(mem, pbase, root, tree)
    requires 1 <= level <= 4 && IsPage(p)
    requires Ancestor(p, level) in tree
    ensures Walk(mem, pbase, tree[Ancestor(p, level)], p, level) == LeafAt(mem, tree, p)
    ensures LeafAt(mem, tree, p).Some? ==>
              && mem[tree[Ancestor(p, level)]].Used?
              && mem[tree[Ancestor(p, level)]].value[Index(p, level)].present
              && mem[tree[Ancestor(p, level)]].value[Index(p, level)].perms.Permits(LeafAt(mem, tree, p).value.perms)
    decreases level
  {
    var n := Ancestor(p, level);
    assert NodeOk(mem, tree, n);
    if level > 1 {
      var i := Index(p, level);
      var c := Ancestor(p, level - 1);
      assert EntryOk(mem, pbase, tree, n, i);
      if c in tree {
        WalkFindsLeaf(mem, pbase, root, tree, p, level - 1);
        assert BlockAt(mem, pbase, AddrOf(pbase, tree[c])) == Some(tree[c]);
      } else {
        MissingBelow(mem, pbase, root, tree, p, level - 1);
      }
    }
  }

  lemma {:induction false} MissingBelow(mem: Memory, pbase: int, root: nat, tree: Tree, p: Page, level: nat)
    requires Shape(mem, pbase, root, tree)
    requires 1 <= level <= 4 && IsPage(p)
    requires Ancestor(p, level) !in tree
    ensures Ancestor(p, 1) !in tree
    decreases level
  {
    if level > 1 {
      var c := Ancestor(p, level - 1);
      assert c in tree ==> NodeOk(mem, tree, c);
      MissingBelow(mem, pbase, root, tree, p, level - 1);
    }
  }
}
