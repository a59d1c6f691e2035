/** src/buddy.c: free lists and bitmap, updated in place. Pages are numbered from `base`. */
module BuddyModel {
  import opened Arith
  import opened Common
  import opened BuddyTree
  import opened BuddyTheorems
  import opened BuddySteps
  import opened Bitmaps
  import opened DLists

  class Buddy {
    const links: Links
    const bitmap: array<bv8>
    const maxOrd: nat
    ghost var tree: Tree

    ghost predicate Valid()
      reads this, links, links.next, links.prev, bitmap
    {
      && links.Valid() && maxOrd <= MAX_ORDER
      && links.next.Length == N_FREE_LISTS + Pow2(maxOrd)
      && bitmap as object != links.next && bitmap as object != links.prev
      && WellFormed(tree, maxOrd) && Canonical(tree)
      && ListsMatch(links.rings, tree, maxOrd) && BitsMatch(bitmap[..], tree, maxOrd)
    }

    /** `buddy_init`, after it has computed the order of the managed memory. */
    constructor (maxOrd: nat)
      requires maxOrd <= MAX_ORDER
      ensures Valid() && this.maxOrd == maxOrd && tree == Free
      ensures fresh(links) && fresh(links.next) && fresh(links.prev) && fresh(bitmap)
    {
      this.maxOrd := maxOrd;
      links := new Links(N_FREE_LISTS, Pow2(maxOrd));
      bitmap := new bv8[(Pow2(maxOrd) + BYTE_WIDTH - 1) / BYTE_WIDTH](_ => 0);
      tree := Free;
      new;
      ghost var rings := links.rings;
      links.Insert(maxOrd, NodeOf(0), maxOrd, 0);
      WholeIsListed(rings, maxOrd);
    }

    /** The free lists' heads are empty exactly if no free block has their order. */
    lemma EmptyList(o: nat)
      requires Valid() && o <= maxOrd
      ensures o < |links.rings|
      ensures links.next[o] == o ==> |links.rings[o]| == 1 && forall s: int :: !IsLeaf(tree, maxOrd, s, o, Free)
      ensures links.next[o] != o ==>
                && |links.rings[o]| > 1 && links.rings[o][1] == links.next[o] >= N_FREE_LISTS
                && links.next[o] - N_FREE_LISTS < Pow2(maxOrd)
                && IsLeaf(tree, maxOrd, links.next[o] - N_FREE_LISTS, o, Free)
    {
      var ring := links.rings[o];
      assert IsRing(links.next[..], links.prev[..], ring) && LinkedAt(links.next[..], links.prev[..], ring, 0);
      if |ring| > 1 {
        var t: nat := if ring[1] < N_FREE_LISTS then ring[1] else 0;
        assert links.rings[t][0] != links.rings[o][1] && links.rings[o][0] != links.rings[o][1];
      }
      if links.next[o] == o {
        forall s: int
          ensures !IsLeaf(tree, maxOrd, s, o, Free)
        {
          LeafRange(tree, maxOrd, s, o, Free);
          assert s >= 0 ==> (Listed(links.rings, s, o) <==> IsLeaf(tree, maxOrd, s, o, Free));
        }
      } else {
        var x := ring[1];
        assert x == NodeOf(x - N_FREE_LISTS);
        assert Listed(links.rings, x - N_FREE_LISTS, o);
        LeafRange(tree, maxOrd, x - N_FREE_LISTS, o, Free);
      }
    }

    /** `buddy_alloc_raw`: the first block of the first non-empty list of sufficient order, split down
        to the order requested. */
    method AllocRaw(reqOrd: nat) returns (r: Option<nat>)
      requires Valid()
      modifies this, links, links.next, links.prev, bitmap
      ensures Valid()
      ensures r.None? <==> forall s: int, q :: reqOrd <= q <= maxOrd ==> !IsLeaf(old(tree), maxOrd, s, q, Free)
      ensures r.None? ==> tree == old(tree) && links.rings == old(links.rings) && bitmap[..] == old(bitmap[..])
      ensures r.Some? ==>
                && IsLeaf(tree, maxOrd, r.value, reqOrd, Used)
                && Allocated(old(tree), tree, maxOrd, r.value, reqOrd)
      ensures r.Some? ==> exists q: nat :: AllocStep(old(tree), tree, maxOrd, r.value, q, reqOrd) &&
                                           |old(links.rings[q])| > 1 && old(links.rings[q])[1] == NodeOf(r.value) &&
                                           forall p :: reqOrd <= p < q ==> |old(links.rings[p])| == 1
    {
      hide Allocated, Canonical, ListsMatch, BitsMatch, Halves;
      var ord := reqOrd;
      while ord <= maxOrd
        modifies {}
        invariant reqOrd <= ord
        invariant forall s: int, q :: reqOrd <= q < ord && q <= maxOrd ==> !IsLeaf(tree, maxOrd, s, q, Free)
        invariant forall p :: reqOrd <= p < ord && p <= maxOrd ==> p < |links.rings| && |links.rings[p]| == 1
      {
        EmptyList(ord);
        if links.next[ord] != ord {
          break;
        }
        ord := ord + 1;
      }
      if ord > maxOrd {
        return None;
      }
      EmptyList(ord);
      var ret := links.next[ord] - N_FREE_LISTS;
      ghost var q := ord;
      Take(ret, ord);
      while ord > reqOrd
        invariant reqOrd <= ord <= q <= maxOrd
        invariant Valid() && IsLeaf(tree, maxOrd, ret, ord, Used)
        invariant Allocated(old(tree), tree, maxOrd, ret, ord)
        invariant tree == Replace(old(tree), maxOrd, ret, q, Chain(q, ord))
      {
        SplitChain(old(tree), maxOrd, ret, q, ord);
        SplitOnce(ret, ord, old(tree));
        ord := ord - 1;
      }
      assert AllocStep(old(tree), tree, maxOrd, ret, q, reqOrd);
      return Some(ret);
    }

    method Take(ret: nat, ord: nat)
      requires Valid() && ord <= maxOrd
      requires |links.rings[ord]| > 1 && links.rings[ord][1] == NodeOf(ret) && ret < Pow2(maxOrd)
      modifies this, links, links.next, links.prev, bitmap
      ensures Valid()
      ensures IsLeaf(old(tree), maxOrd, ret, ord, Free) && tree == Replace(old(tree), maxOrd, ret, ord, Used)
      ensures IsLeaf(tree, maxOrd, ret, ord, Used) && Allocated(old(tree), tree, maxOrd, ret, ord)
    {
      ghost var rings, bits := links.rings, bitmap[..];
      assert Listed(rings, ret, ord);
      NodeRange(tree, maxOrd, ret, ord);
      SetBits(bitmap, ret, ret + Pow2(ord), false);
      links.Remove(NodeOf(ret), (ord, 1), false);
      TakeStep(rings, bits, bitmap[..], tree, maxOrd, ret, ord, 1);
      TakeAllocates(tree, maxOrd, ret, ord);
      tree := Replace(tree, maxOrd, ret, ord, Used);
    }

    method SplitOnce(ret: nat, ord: nat, ghost t0: Tree)
      requires Valid() && 0 < ord <= maxOrd && IsLeaf(tree, maxOrd, ret, ord, Used)
      requires WellFormed(t0, maxOrd) && Allocated(t0, tree, maxOrd, ret, ord)
      modifies this, links, links.next, links.prev, bitmap
      ensures Valid()
      ensures IsLeaf(tree, maxOrd, ret, ord - 1, Used) && Allocated(t0, tree, maxOrd, ret, ord - 1)
      ensures tree == Replace(old(tree), maxOrd, ret, ord, Halves(ord))
    {
      ghost var rings, bits := links.rings, bitmap[..];
      var rem := ret + Pow2(ord - 1);
      NodeRange(tree, maxOrd, ret, ord);
      SetBits(bitmap, rem, rem + Pow2(ord - 1), true);
      SplitStep(rings, bits, bitmap[..], tree, maxOrd, ret, ord);
      NotInRing(rem);
      links.Insert(ord - 1, NodeOf(rem), ord - 1, 0);
      SplitAllocates(t0, tree, maxOrd, ret, ord);
      tree := Replace(tree, maxOrd, ret, ord, Halves(ord));
    }

    /** `is_avail`. */
    method IsAvail(page: nat) returns (r: bool)
      requires page < BYTE_WIDTH * bitmap.Length
      ensures r == BitAt(bitmap[..], page)
    {
      r := bitmap[page / BYTE_WIDTH] & Bit(page % BYTE_WIDTH) != 0;
    }

    /** What the merge loop keeps, for a free of the block of order `o0` at `s0` that has grown to the
        block of order `o` at `s`. The ghost flag says whether all merges so far were in order. */
    ghost predicate Merging(s0: nat, o0: nat, s: nat, o: nat, good: bool)
      reads this, links, links.next, links.prev, bitmap
    {
      && links.Valid() && maxOrd <= MAX_ORDER
      && links.next.Length == N_FREE_LISTS + Pow2(maxOrd)
      && bitmap as object != links.next && bitmap as object != links.prev
      && WellFormed(tree, maxOrd) && Canonical(tree) && tree != Free && BitsMatch(bitmap[..], tree, maxOrd)
      && HasNode(tree, maxOrd, s0, o0) && HasNode(tree, maxOrd, s, o) && o <= maxOrd
      && Pending(links.rings, tree, maxOrd, s, o) && Unlisted(links.rings, s)
      && (forall p :: Within(p, s0, o0) ==> Within(p, s, o))
      && (good ==> Absorbed(links.rings, s, o) && Release(tree, maxOrd, s, o) == Release(tree, maxOrd, s0, o0))
      && (!good ==> Swallowed(tree, maxOrd, s, o, s0, o0))
      && (MergesOk(tree, maxOrd, s0, o0) <==> good && MergesOk(tree, maxOrd, s, o))
      && Grown(tree, maxOrd, s0, o0) == Grown(tree, maxOrd, s, o)
    }

    /** `buddy_free_raw`. It crashes exactly if the block grows to order 50 or more. Otherwise, if every
        merge joins whole free buddies, the result is the tree in which the block is released; if not,
        and only then, a block ends up on a free list that holds a page of another allocation. */
    method FreeRaw(block: nat, ord0: nat) returns (r: Result<()>)
      requires Valid() && IsLeaf(tree, maxOrd, block, ord0, Used)
      modifies this, links, links.next, links.prev, bitmap
      ensures r == if Grown(old(tree), maxOrd, block, ord0) >= 50 then Crashed else Ok(())
      ensures r.Ok? && MergesOk(old(tree), maxOrd, block, ord0) ==>
                Valid() && tree == Release(old(tree), maxOrd, block, ord0)
      ensures r.Ok? && !MergesOk(old(tree), maxOrd, block, ord0) ==>
                exists s: nat, o: nat :: o <= maxOrd && o < |links.rings| && Listed(links.rings, s, o) &&
                  Swallowed(old(tree), maxOrd, s, o, block, ord0)
    {
      hide Merging, MergesOk, ListsMatch, BitsMatch, Canonical, Release, BuddyOf, GetBuddy, Swallowed, Grown;
      StartMerging(block, ord0);
      var b: nat, ord: nat := block, ord0;
      ghost var good := true;
      var buddy, avail := Probe(block, ord0, b, ord, good);
      if buddy.Crashed? {
        return Crashed;
      }
      while avail
        invariant tree == old(tree) && Merging(block, ord0, b, ord, good)
        invariant buddy.Ok? && Grown(tree, maxOrd, block, ord0) >= ord
        invariant avail ==> ord < maxOrd && buddy.value >= 0 && buddy.value == BuddyOf(maxOrd, b, ord) &&
                            PageFree(tree, maxOrd, buddy.value)
        invariant !avail ==> (ord < maxOrd ==> !PageFree(tree, maxOrd, BuddyOf(maxOrd, b, ord))) && ord < 50
        decreases maxOrd - ord, avail
      {
        MinIsParent(block, ord0, b, ord, good);
        good := UnlinkBuddy(block, ord0, b, ord, buddy.value, good);
        ord := ord + 1;
        if buddy.value < b {
          b := buddy.value;
        }
        buddy, avail := Probe(block, ord0, b, ord, good);
        if buddy.Crashed? {
          return Crashed;
        }
      }
      Verdict(block, ord0, b, ord, good);
      Finish(block, ord0, b, ord, good);
      return Ok(());
    }

    lemma StartMerging(block: nat, ord: nat)
      requires Valid() && IsLeaf(tree, maxOrd, block, ord, Used)
      ensures Merging(block, ord, block, ord, true)
    {
      StartPending(links.rings, tree, maxOrd, block, ord);
      NodeRange(tree, maxOrd, block, ord);
      if tree == Free {
        LeafRange(tree, maxOrd, block, ord, Used);
      }
    }

    lemma MinIsParent(s0: nat, o0: nat, s: nat, o: nat, good: bool)
      requires Merging(s0, o0, s, o, good) && o < maxOrd
      ensures ParentOf(maxOrd, s, o) == if BuddyOf(maxOrd, s, o) < s then BuddyOf(maxOrd, s, o) else s
    {
    }

    /** When the loop has ended, the flag says whether all merges were in order. */
    lemma Verdict(s0: nat, o0: nat, s: nat, o: nat, good: bool)
      requires Merging(s0, o0, s, o, good)
      requires o < maxOrd ==> !PageFree(tree, maxOrd, BuddyOf(maxOrd, s, o))
      ensures IsNodeOf(s0, o0) && (MergesOk(tree, maxOrd, s0, o0) <==> good)
      ensures o <= maxOrd && (!good ==> Swallowed(tree, maxOrd, s, o, s0, o0))
      ensures Grown(tree, maxOrd, s0, o0) == o
    {
    }

    ghost predicate IsNodeOf(s: nat, o: nat)
      reads this
    {
      WellFormed(tree, maxOrd) && HasNode(tree, maxOrd, s, o)
    }

    /** `get_buddy`, then the loop condition. */
    method Probe(ghost s0: nat, ghost o0: nat, s: nat, o: nat, ghost good: bool)
      returns (buddy: Result<int>, avail: bool)
      requires Merging(s0, o0, s, o, good)
      ensures buddy.Crashed? <==> o >= 50
      ensures !buddy.Err? && IsNodeOf(s0, o0) && Grown(tree, maxOrd, s0, o0) >= o
      ensures buddy.Ok? && avail ==> o < maxOrd && buddy.value >= 0 && buddy.value == BuddyOf(maxOrd, s, o) &&
                                     PageFree(tree, maxOrd, buddy.value)
      ensures buddy.Ok? && !avail ==> o < maxOrd ==> !PageFree(tree, maxOrd, BuddyOf(maxOrd, s, o))
    {
      BuddyArithmetic(tree, maxOrd, s, o);
      buddy := GetBuddy(s, o);
      avail := false;
      if buddy.Ok? && o < maxOrd {
        BuddyInside(tree, maxOrd, s, o);
        avail := IsAvail(buddy.value);
      }
    }

    /** The body of the loop: unlink the block that starts at the buddy. */
    method UnlinkBuddy(s0: nat, o0: nat, s: nat, o: nat, buddy: nat, ghost good: bool) returns (ghost good': bool)
      requires Merging(s0, o0, s, o, good) && o < maxOrd
      requires buddy == BuddyOf(maxOrd, s, o) && PageFree(tree, maxOrd, buddy)
      modifies links, links.next, links.prev
      ensures ParentOf(maxOrd, s, o) >= 0 && Merging(s0, o0, ParentOf(maxOrd, s, o), o + 1, good')
    {
      hide MergesOk, Release, BitsMatch, Canonical, Grown, Swallowed, Absorbed, Pending, Unlisted, BuddyOf, ParentOf;
      NodeFamily(tree, maxOrd, s, o);
      ghost var q := FirstBlock(tree, maxOrd, buddy, o);
      BuddyListed(links.rings, tree, maxOrd, s, o, buddy, q);
      ghost var k :| 0 <= k < |links.rings[q]| && links.rings[q][k] == NodeOf(buddy);
      MergeStep(links.rings, tree, maxOrd, s, o, q, k);
      links.Remove(NodeOf(buddy), (q, k), false);
      good' := good && q == o;
      MergeAccounts(tree, maxOrd, s0, o0, s, o, q, good);
    }

    /** The last two lines: mark the pages and link the block. */
    method Finish(s0: nat, o0: nat, s: nat, o: nat, ghost good: bool)
      requires Merging(s0, o0, s, o, good)
      requires o < maxOrd ==> !PageFree(tree, maxOrd, BuddyOf(maxOrd, s, o))
      modifies this, links, links.next, links.prev, bitmap
      ensures good ==> Valid() && tree == Release(old(tree), maxOrd, s0, o0)
      ensures |links.rings| == N_FREE_LISTS && Listed(links.rings, s, o)
    {
      ghost var rings, bits := links.rings, bitmap[..];
      NodeRange(tree, maxOrd, s, o);
      SetBits(bitmap, s, s + Pow2(o), true);
      NotInRing(s);
      links.Insert(o, NodeOf(s), o, 0);
      MemberAfterInsert(rings, o, 0, NodeOf(s), o, NodeOf(s));
      if good {
        if o < maxOrd {
          NodeFamily(tree, maxOrd, s, o);
          NotFreeNotLeaf(tree, maxOrd, BuddyOf(maxOrd, s, o), o);
        }
        ReleaseStep(rings, bits, bitmap[..], tree, maxOrd, s, o);
        tree := Release(tree, maxOrd, s, o);
      }
    }

    lemma NotInRing(s: nat)
      requires |links.rings| == N_FREE_LISTS
      requires (forall q: nat :: q < N_FREE_LISTS ==> !Listed(links.rings, s, q)) || Unlisted(links.rings, s)
      ensures !InRing(links.rings, NodeOf(s))
    {
      forall q | 0 <= q < N_FREE_LISTS
        ensures NodeOf(s) !in links.rings[q]
      {
        assert !Listed(links.rings, s, q);
      }
    }
  }

  lemma WholeIsListed(rings: seq<seq<nat>>, h: nat)
    requires |rings| == N_FREE_LISTS && h < N_FREE_LISTS
    requires forall r :: 0 <= r < |rings| ==> rings[r] == [r]
    ensures ListsMatch(rings[h := Inserted(rings[h], 0, NodeOf(0))], Free, h)
  {
    forall q: nat, p: nat | q < N_FREE_LISTS
      ensures Listed(rings[h := Inserted(rings[h], 0, NodeOf(0))], p, q) <==> IsLeaf(Free, h, p, q, Free)
    {
      MemberAfterInsert(rings, h, 0, NodeOf(0), q, NodeOf(p));
    }
  }

  const MAX_PAGES := 0x7_FFFF_FFFF_FFFF // SZ_MAX / PAGE_SIZE

  /** `get_buddy`: by the remainder modulo the size of the next order, which must fit an `sz`. */
  function GetBuddy(s: nat, o: nat): Result<int>
  {
    if Pow2(o + 1) > MAX_PAGES then Crashed
    else if s % Pow2(o + 1) == 0 then Ok(s + Pow2(o))
    else if s % Pow2(o + 1) == Pow2(o) then Ok(s - Pow2(o))
    else Crashed
  }

  /** The arithmetic finds the buddy in the tree. On a block it crashes exactly from order 50 on. */
  lemma BuddyArithmetic(t: Tree, h: nat, s: nat, o: nat)
    requires WellFormed(t, h) && HasNode(t, h, s, o)
    ensures GetBuddy(s, o) == if o >= 50 then Crashed else Ok(if o < h then BuddyOf(h, s, o) else Pow2(o))
    ensures o == h ==> s == 0
  {
    SizeFits(o);
    if o < h {
      SideByRemainder(t, h, s, o);
    } else {
      NodeRange(t, h, s, o);
      SmallMod(0, Pow2(o + 1));
    }
  }

  lemma SizeFits(o: nat)
    ensures Pow2(o + 1) <= MAX_PAGES <==> o < 50
  {
    KnownPowers();
    Pow2Order(51, o + 1);
    Pow2Order(o + 1, 50);
  }

  /** The block that starts at the buddy's first page is on its list. */
  lemma BuddyListed(rings: seq<seq<nat>>, t: Tree, h: nat, s: nat, o: nat, buddy: nat, q: nat)
    requires WellFormed(t, h) && HasNode(t, h, s, o) && o < h && buddy == BuddyOf(h, s, o) && Pending(rings, t, h, s, o)
    requires HasNode(t, h, buddy, o) && q <= o && IsLeaf(t, h, buddy, q, Free) && h < N_FREE_LISTS
    ensures |rings| == N_FREE_LISTS && q < N_FREE_LISTS && Listed(rings, buddy, q) && buddy < Pow2(h)
    ensures ParentOf(h, s, o) >= 0
  {
    NodeRange(t, h, buddy, o);
    ParentPages(t, h, s, o, buddy);
    assert !Within(buddy, s, o);
  }

  /** What one merge means for the pages, for the release and for the verdict. */
  lemma MergeAccounts(t: Tree, h: nat, s0: nat, o0: nat, s: nat, o: nat, q: nat, good: bool)
    requires WellFormed(t, h) && Canonical(t) && HasNode(t, h, s0, o0) && HasNode(t, h, s, o) && o < h
    requires BuddyOf(h, s, o) >= 0 && PageFree(t, h, BuddyOf(h, s, o))
    requires q <= o && IsLeaf(t, h, BuddyOf(h, s, o), q, Free)
    requires forall p :: Within(p, s0, o0) ==> Within(p, s, o)
    requires !good ==> Swallowed(t, h, s, o, s0, o0)
    ensures HasNode(t, h, ParentOf(h, s, o), o + 1)
    ensures Grown(t, h, s, o) == Grown(t, h, ParentOf(h, s, o), o + 1)
    ensures forall p :: Within(p, s0, o0) ==> Within(p, ParentOf(h, s, o), o + 1)
    ensures if q == o
            then && Release(t, h, s, o) == Release(t, h, ParentOf(h, s, o), o + 1)
                 && (MergesOk(t, h, s, o) <==> MergesOk(t, h, ParentOf(h, s, o), o + 1))
            else !MergesOk(t, h, s, o)
    ensures !(good && q == o) ==> Swallowed(t, h, ParentOf(h, s, o), o + 1, s0, o0)
  {
    var b, parent := BuddyOf(h, s, o), ParentOf(h, s, o);
    NodeFamily(t, h, s, o);
    forall p
      ensures Within(p, s, o) ==> Within(p, parent, o + 1)
    {
      ParentPages(t, h, s, o, p);
    }
    if q == o {
      ReleaseMerges(t, h, s, o);
    } else {
      InsideLeaf(t, h, b, q, b, o);
      assert Within(b, b, q);
      BuddyNotWhole(t, h, s, o, s0, o0);
    }
  }

  lemma BuddyInside(t: Tree, h: nat, s: nat, o: nat)
    requires WellFormed(t, h) && HasNode(t, h, s, o) && o < h
    ensures 0 <= BuddyOf(h, s, o) < Pow2(h)
  {
    NodeFamily(t, h, s, o);
    NodeRange(t, h, BuddyOf(h, s, o), o);
  }

  lemma NotFreeNotLeaf(t: Tree, h: nat, s: int, o: nat)
    requires WellFormed(t, h) && !PageFree(t, h, s)
    ensures !IsLeaf(t, h, s, o, Free)
  {
    if IsLeaf(t, h, s, o, Free) {
      LeafIsFree(t, h, s, o, s);
    }
  }
}
