/** The interface of src/buddy.c: allocating and freeing by size, and what holds while a caller uses the
    allocator, knowing nothing but the blocks that it holds. */
module BuddyAlloc {
  import opened Arith
  import opened Common
  import opened BuddyTree
  import opened BuddyTheorems
  import opened BuddySteps
  import opened BuddyModel
  import opened BuddyRuns
  import Sizes = BuddySizes

  // ----- By size -------------------------------------------------------------------------------

  /** `buddy_alloc`: a block that holds `size` bytes, of the least order for which there is a block of
      that size. It fails exactly if no aligned run of so many pages is free. */
  method Alloc(b: Buddy, size: int) returns (r: Result<Option<nat>>, ghost ord: nat)
    requires b.Valid() && size <= Sizes.SZ_MAX
    modifies b, b.links, b.links.next, b.links.prev, b.bitmap
    ensures b.Valid()
    ensures r.Ok? <==> 0 < size <= Pow2(62)
    ensures if r.Ok? then Sizes.LeastOrder(size, ord) else r == Crashed
    ensures r.Ok? && r.value.Some? ==>
              && size <= Sizes.PAGE_SIZE * Pow2(ord)
              && IsLeaf(b.tree, b.maxOrd, r.value.value, ord, Used)
              && (exists q: nat :: AllocStep(old(b.tree), b.tree, b.maxOrd, r.value.value, q, ord))
              && Allocated(old(b.tree), b.tree, b.maxOrd, r.value.value, ord)
    ensures r.Ok? ==> (r.value.None? <==> !exists s :: FreeRun(old(b.tree), b.maxOrd, s, ord))
    ensures !(r.Ok? && r.value.Some?) ==> b.tree == old(b.tree)
  {
    hide AllocStep, Allocated, FreeRun, IsLeaf, Sizes.LeastOrder;
    var order := Sizes.OrderForSize(size);
    if !order.Ok? {
      return Crashed, 0;
    }
    ord := order.value;
    HoldsSize(size, ord);
    FailsOnlyWithoutRun(b.tree, b.maxOrd, ord);
    var block := b.AllocRaw(order.value);
    return Ok(block), ord;
  }

  lemma HoldsSize(size: int, ord: nat)
    requires size >= 0 && Sizes.LeastOrder(size, ord)
    ensures size <= Sizes.PAGE_SIZE * Pow2(ord)
  {
  }

  /** `buddy_free` of a block of `ord`, with the size for which it was allocated: the order is found
      again, and if all merges are in order exactly this block is no longer allocated. */
  method Free(b: Buddy, block: nat, size: int, ghost ord: nat) returns (r: Result<()>)
    requires b.Valid() && 0 < size <= Pow2(62) && Sizes.LeastOrder(size, ord)
    requires IsLeaf(b.tree, b.maxOrd, block, ord, Used)
    modifies b, b.links, b.links.next, b.links.prev, b.bitmap
    ensures r == if Grown(old(b.tree), b.maxOrd, block, ord) >= 50 then Crashed else Ok(())
    ensures r.Ok? && MergesOk(old(b.tree), b.maxOrd, block, ord) ==>
              && b.Valid() && b.tree == Release(old(b.tree), b.maxOrd, block, ord)
              && forall s: int, o: nat :: IsLeaf(b.tree, b.maxOrd, s, o, Used) <==>
                   IsLeaf(old(b.tree), b.maxOrd, s, o, Used) && (s, o) != (block, ord)
  {
    hide MergesOk, Grown, IsLeaf, Sizes.LeastOrder;
    KnownPowers();
    var order := Sizes.OrderForSize(size);
    Sizes.SameOrder(size, ord, order.value);
    ghost var t := b.tree;
    OthersKept(t, b.maxOrd, block, ord);
    r := b.FreeRaw(block, order.value);
  }

  lemma OthersKept(t: Tree, h: nat, s: int, o: nat)
    requires WellFormed(t, h) && IsLeaf(t, h, s, o, Used)
    ensures forall s': int, o': nat :: IsLeaf(Release(t, h, s, o), h, s', o', Used) <==>
              IsLeaf(t, h, s', o', Used) && (s', o') != (s, o)
  {
    forall s': int, o': nat
      ensures IsLeaf(Release(t, h, s, o), h, s', o', Used) <==> IsLeaf(t, h, s', o', Used) && (s', o') != (s, o)
    {
      ReleaseKeepsOthers(t, h, s, o, s', o');
    }
  }

  /** If all merges are in order, the block grows to the top order exactly if its release leaves a single
      free block. So with memory of order 50 it is that last free that crashes in line 163. */
  lemma {:induction false} GrownToWhole(t: Tree, h: nat, s: int, o: nat)
    requires WellFormed(t, h) && HasNode(t, h, s, o) && MergesOk(t, h, s, o)
    ensures Grown(t, h, s, o) == h <==> Release(t, h, s, o) == BuddyTree.Free
    decreases h - o
  {
    NodeRange(t, h, s, o);
    if o < h {
      if PageFree(t, h, BuddyOf(h, s, o)) {
        ReleaseMerges(t, h, s, o);
        GrownToWhole(t, h, ParentOf(h, s, o), o + 1);
      } else {
        if IsLeaf(t, h, BuddyOf(h, s, o), o, BuddyTree.Free) {
          LeafIsFree(t, h, BuddyOf(h, s, o), o, BuddyOf(h, s, o));
        }
        ReleaseStops(t, h, s, o);
      }
    }
  }

  /** Memory of order 50, which `buddy_init` makes of 2^62 bytes: one page is allocated and freed again. */
  method LastFreeCrashes() returns (r: Result<()>)
    ensures r.Crashed?
  {
    hide MergesOk, Grown, Release, Chain;
    var b := new Buddy(50);
    ghost var t := b.tree;
    OnlyWhole(50);
    assert IsLeaf(t, b.maxOrd, 0, 50, BuddyTree.Free);
    var page := b.AllocRaw(0);
    ghost var q: nat :| AllocStep(t, b.tree, 50, page.value, q, 0);
    FreeUndoesAlloc(t, b.tree, 50, page.value, q, 0);
    GrownToWhole(b.tree, 50, page.value, 0);
    r := b.FreeRaw(page.value, 0);
  }

  lemma OnlyWhole(h: nat)
    ensures forall s: int, o: nat :: IsLeaf(BuddyTree.Free, h, s, o, BuddyTree.Free) <==> s == 0 && o == h
  {
  }

  // ----- The blocks in use ---------------------------------------------------------------------

  datatype Block = Block(start: nat, order: nat)

  /** `held` lists the allocated blocks, each of them once. */
  ghost predicate Holds(held: seq<Block>, t: Tree, h: nat)
    requires WellFormed(t, h)
  {
    && (forall s: nat, o: nat {:trigger IsLeaf(t, h, s, o, Used)} :: IsLeaf(t, h, s, o, Used) <==> Block(s, o) in held)
    && (forall i, j :: 0 <= i < j < |held| ==> held[i] != held[j])
  }

  predicate Covered(held: seq<Block>, p: int)
  {
    exists j :: 0 <= j < |held| && Within(p, held[j].start, held[j].order)
  }

  /** Some block shares a page with the block of order `o` at `s`. */
  predicate Meets(held: seq<Block>, s: int, o: nat)
  {
    exists j :: 0 <= j < |held| && (Within(s, held[j].start, held[j].order) || Within(held[j].start, s, o))
  }

  /** A caller's test, before it frees the block of order `o` at `s`: wherever the first page of a buddy
      is not in use, none of the buddy's pages is. */
  predicate Orderly(held: seq<Block>, h: nat, s: int, o: nat)
    decreases h - o
  {
    o >= h || Covered(held, BuddyOf(h, s, o)) ||
    (!Meets(held, BuddyOf(h, s, o), o) && Orderly(held, h, ParentOf(h, s, o), o + 1))
  }

  lemma FreeIfUncovered(held: seq<Block>, t: Tree, h: nat, p: int)
    requires WellFormed(t, h) && Holds(held, t, h) && 0 <= p < Pow2(h)
    ensures PageFree(t, h, p) <==> !Covered(held, p)
  {
    var s, o, leaf := BlockOf(t, h, p);
    LeafRange(t, h, s, o, leaf);
    if leaf == Used {
      assert Block(s, o) in held;
      var j :| 0 <= j < |held| && held[j] == Block(s, o);
      assert Within(p, held[j].start, held[j].order);
    } else if Covered(held, p) {
      var j :| 0 <= j < |held| && Within(p, held[j].start, held[j].order);
      assert Block(held[j].start, held[j].order) in held;
      BlockIsUnique(t, h, p, s, o, leaf, held[j].start, held[j].order, Used);
    }
  }

  lemma FreeIfUnmet(held: seq<Block>, t: Tree, h: nat, s: int, o: nat)
    requires WellFormed(t, h) && Canonical(t) && Holds(held, t, h) && HasNode(t, h, s, o)
    ensures IsLeaf(t, h, s, o, BuddyTree.Free) <==> !Meets(held, s, o)
  {
    NodeRange(t, h, s, o);
    if IsLeaf(t, h, s, o, BuddyTree.Free) {
      forall j | 0 <= j < |held|
        ensures !Within(s, held[j].start, held[j].order) && !Within(held[j].start, s, o)
      {
        UsedIsApart(held, t, h, s, o, j);
      }
    } else if !Meets(held, s, o) {
      CanonicalAt(t, h, s, o);
      forall x | 0 <= x < Pow2(o)
        ensures PageFree(At(t, h, s, o), o, x)
      {
        UncoveredIfUnmet(held, t, h, s, o, x);
        FreeIfUncovered(held, t, h, s + x);
        PagesAt(t, h, s, o, x);
      }
      AllFreeIsWhole(At(t, h, s, o), o);
    }
  }

  /** A block that is in use shares no page with a free block. */
  lemma UsedIsApart(held: seq<Block>, t: Tree, h: nat, s: int, o: nat, j: nat)
    requires WellFormed(t, h) && Holds(held, t, h) && IsLeaf(t, h, s, o, BuddyTree.Free) && j < |held|
    ensures !Within(s, held[j].start, held[j].order) && !Within(held[j].start, s, o)
  {
    var u := held[j];
    HeldIsUsed(held, t, h, j);
    if Within(s, u.start, u.order) {
      InsideLeaf(t, h, u.start, u.order, s, o);
    }
    if Within(u.start, s, o) {
      InsideLeaf(t, h, s, o, u.start, u.order);
    }
  }

  /** A block in use that covers a page of a node either starts inside the node or covers its start. */
  lemma UncoveredIfUnmet(held: seq<Block>, t: Tree, h: nat, s: int, o: nat, x: int)
    requires WellFormed(t, h) && HasNode(t, h, s, o) && 0 <= x < Pow2(o) && !Meets(held, s, o)
    ensures !Covered(held, s + x)
  {
    forall j | 0 <= j < |held|
      ensures !Within(s + x, held[j].start, held[j].order)
    {
      assert !Within(s, held[j].start, held[j].order) && !Within(held[j].start, s, o);
    }
  }

  /** The caller's test decides whether the merges will be in order. */
  lemma {:induction false} OrderlyIsMergesOk(held: seq<Block>, t: Tree, h: nat, s: int, o: nat)
    requires WellFormed(t, h) && Canonical(t) && Holds(held, t, h) && HasNode(t, h, s, o)
    ensures Orderly(held, h, s, o) <==> MergesOk(t, h, s, o)
    decreases h - o
  {
    NodeRange(t, h, s, o);
    if o < h {
      var b := BuddyOf(h, s, o);
      NodeFamily(t, h, s, o);
      NodeRange(t, h, b, o);
      FreeIfUncovered(held, t, h, b);
      FreeIfUnmet(held, t, h, b, o);
      OrderlyIsMergesOk(held, t, h, ParentOf(h, s, o), o + 1);
    }
  }

  // ----- A caller ------------------------------------------------------------------------------

  datatype Call = AllocCall(order: nat) | FreeCall(k: nat)

  /** Any calls to a new allocator, up to the first free that is not in order or crashes: the trees that
      it goes through are a run, the caller's list names the blocks in use, and when the list is empty
      all memory is a single block again. Only the free that would make it so can crash, and only with
      memory of order 50. */
  method Drive(b: Buddy, calls: seq<Call>) returns (held: seq<Block>, n: nat, crashed: bool, ghost ts: seq<Tree>)
    requires b.Valid() && b.tree == BuddyTree.Free
    modifies b, b.links, b.links.next, b.links.prev, b.bitmap
    ensures n <= |calls|
    ensures Run(ts, b.maxOrd) && Holds(held, ts[|ts| - 1], b.maxOrd)
    ensures !crashed ==> b.Valid() && b.tree == ts[|ts| - 1] && (held == [] ==> b.tree == BuddyTree.Free)
    ensures crashed ==> n < |calls| && b.maxOrd == 50
    ensures n < |calls| ==> calls[n].FreeCall?
    ensures n < |calls| && calls[n].k < |held| ==>
              var u := held[calls[n].k];
              && IsLeaf(ts[|ts| - 1], b.maxOrd, u.start, u.order, Used)
              && (MergesOk(ts[|ts| - 1], b.maxOrd, u.start, u.order) <==> crashed)
              && (crashed ==> Release(ts[|ts| - 1], b.maxOrd, u.start, u.order) == BuddyTree.Free)
    ensures crashed ==> calls[n].k < |held|
  {
    hide Holds, Run, IsLeaf, MergesOk, Orderly, Release;
    held, n, crashed, ts := [], 0, false, [BuddyTree.Free];
    NothingHeld(b.maxOrd);
    while n < |calls|
      invariant b.Valid() && n <= |calls|
      invariant Run(ts, b.maxOrd) && ts[|ts| - 1] == b.tree && Holds(held, b.tree, b.maxOrd)
    {
      match calls[n] {
        case AllocCall(order) =>
          held, ts := Take(b, order, held, ts);
        case FreeCall(k) =>
          if k >= |held| {
            break;
          }
          var u := held[k];
          HeldIsUsed(held, b.tree, b.maxOrd, k);
          OrderlyIsMergesOk(held, b.tree, b.maxOrd, u.start, u.order);
          if !Orderly(held, b.maxOrd, u.start, u.order) {
            break;
          }
          crashed, ts := GiveBack(b, k, held, ts);
          if crashed {
            return;
          }
          held := held[..k] + held[k + 1..];
      }
      n := n + 1;
    }
    if held == [] {
      NoneUsed(b.tree, b.maxOrd);
      EverythingFreed(ts, b.maxOrd);
    }
  }

  lemma NothingHeld(h: nat)
    ensures Run([BuddyTree.Free], h) && Holds([], BuddyTree.Free, h)
  {
    forall s: nat, o: nat
      ensures !IsLeaf(BuddyTree.Free, h, s, o, Used)
    {
    }
  }

  lemma NoneUsed(t: Tree, h: nat)
    requires WellFormed(t, h) && Holds([], t, h)
    ensures forall s: int, o: nat :: !IsLeaf(t, h, s, o, Used)
  {
    forall s: int, o: nat
      ensures !IsLeaf(t, h, s, o, Used)
    {
      LeafRange(t, h, s, o, Used);
    }
  }

  lemma HeldIsUsed(held: seq<Block>, t: Tree, h: nat, k: nat)
    requires WellFormed(t, h) && Holds(held, t, h) && k < |held|
    ensures HasNode(t, h, held[k].start, held[k].order) && IsLeaf(t, h, held[k].start, held[k].order, Used)
  {
    assert IsLeaf(t, h, held[k].start, held[k].order, Used) <==> Block(held[k].start, held[k].order) in held;
  }

  method Take(b: Buddy, order: nat, held: seq<Block>, ghost ts: seq<Tree>)
    returns (held': seq<Block>, ghost ts': seq<Tree>)
    requires b.Valid() && Run(ts, b.maxOrd) && ts[|ts| - 1] == b.tree && Holds(held, b.tree, b.maxOrd)
    modifies b, b.links, b.links.next, b.links.prev, b.bitmap
    ensures b.Valid() && Run(ts', b.maxOrd) && ts'[|ts'| - 1] == b.tree && Holds(held', b.tree, b.maxOrd)
  {
    hide Holds, Run, IsLeaf, AllocStep, Allocated;
    ghost var t := b.tree;
    var r := b.AllocRaw(order);
    if r.None? {
      return held, ts;
    }
    HoldsAfterAlloc(held, t, b.tree, b.maxOrd, r.value, order);
    ghost var q: nat :| AllocStep(t, b.tree, b.maxOrd, r.value, q, order);
    RunOn(ts, b.maxOrd, b.tree);
    return held + [Block(r.value, order)], ts + [b.tree];
  }

  lemma HoldsAfterAlloc(held: seq<Block>, t: Tree, t': Tree, h: nat, s: nat, o: nat)
    requires WellFormed(t, h) && WellFormed(t', h) && Holds(held, t, h) && Allocated(t, t', h, s, o)
    ensures Holds(held + [Block(s, o)], t', h)
  {
    forall i, j | 0 <= i < j < |held| + 1
      ensures (held + [Block(s, o)])[i] != (held + [Block(s, o)])[j]
    {
      assert !IsLeaf(t, h, s, o, Used);
      assert Block(s, o) !in held;
    }
  }

  method GiveBack(b: Buddy, k: nat, held: seq<Block>, ghost ts: seq<Tree>)
    returns (crashed: bool, ghost ts': seq<Tree>)
    requires b.Valid() && Run(ts, b.maxOrd) && ts[|ts| - 1] == b.tree && Holds(held, b.tree, b.maxOrd)
    requires k < |held| && HasNode(b.tree, b.maxOrd, held[k].start, held[k].order)
    requires MergesOk(b.tree, b.maxOrd, held[k].start, held[k].order)
    modifies b, b.links, b.links.next, b.links.prev, b.bitmap
    ensures !crashed ==>
              && b.Valid() && Run(ts', b.maxOrd) && ts'[|ts'| - 1] == b.tree
              && Holds(held[..k] + held[k + 1..], b.tree, b.maxOrd)
    ensures crashed ==>
              && ts' == ts && b.maxOrd == 50
              && Release(old(b.tree), b.maxOrd, held[k].start, held[k].order) == BuddyTree.Free
  {
    hide Holds, Run, IsLeaf, MergesOk, Grown, Release;
    ghost var t, u := b.tree, held[k];
    HeldIsUsed(held, t, b.maxOrd, k);
    HoldsAfterFree(held, t, b.maxOrd, k);
    GrownToWhole(t, b.maxOrd, u.start, u.order);
    var r := b.FreeRaw(held[k].start, held[k].order);
    if !r.Ok? {
      return true, ts;
    }
    assert FreeStep(t, b.tree, b.maxOrd, u.start, u.order);
    RunOn(ts, b.maxOrd, b.tree);
    return false, ts + [b.tree];
  }

  lemma HoldsAfterFree(held: seq<Block>, t: Tree, h: nat, k: nat)
    requires WellFormed(t, h) && Holds(held, t, h) && k < |held| && IsLeaf(t, h, held[k].start, held[k].order, Used)
    ensures Holds(held[..k] + held[k + 1..], Release(t, h, held[k].start, held[k].order), h)
  {
    var u, rest := held[k], held[..k] + held[k + 1..];
    var t' := Release(t, h, u.start, u.order);
    OthersKept(t, h, u.start, u.order);
    assert held == held[..k] + [u] + held[k + 1..];
    forall s: nat, o: nat
      ensures IsLeaf(t', h, s, o, Used) <==> Block(s, o) in rest
    {
      if Block(s, o) in rest {
        var i :| 0 <= i < |rest| && rest[i] == Block(s, o);
        assert held[if i < k then i else i + 1] == Block(s, o);
      }
    }
  }
}
