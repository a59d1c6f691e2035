/** How the free lists and the bitmap of src/buddy.c describe a tree, and the steps that keep them so. */
module BuddySteps {
  import opened Arith
  import opened BuddyTree
  import opened BuddyTheorems
  import opened Bitmaps
  import opened DLists

  const N_FREE_LISTS := 52 // 64-bit pointers, less the twelve bits within a page.

  const MAX_ORDER := 50 // The largest that `buddy_init` arrives at (see BuddySizes.InitialOrder).

  /** The list node in the first bytes of page `p`; the nodes before are the list heads. */
  function NodeOf(p: nat): nat { N_FREE_LISTS + p }

  /** List `o` holds exactly the free blocks of order `o`. */
  ghost predicate ListsMatch(rings: seq<seq<nat>>, t: Tree, h: nat)
    requires WellFormed(t, h)
  {
    && |rings| == N_FREE_LISTS
    && (forall o: nat, s: nat {:trigger Listed(rings, s, o)} ::
          o < N_FREE_LISTS ==> (Listed(rings, s, o) <==> IsLeaf(t, h, s, o, Free)))
  }

  ghost predicate Listed(rings: seq<seq<nat>>, s: nat, o: nat)
    requires o < |rings|
  {
    NodeOf(s) in rings[o]
  }

  /** A bit is set exactly if its page is in a free block; only while all of memory is one free
      block do the bits say nothing (`buddy_init` leaves them clear). */
  ghost predicate BitsMatch(bits: seq<bv8>, t: Tree, h: nat)
    requires WellFormed(t, h)
  {
    && Pow2(h) <= BYTE_WIDTH * |bits|
    && (t != Free ==> forall p: nat :: p < Pow2(h) ==> (BitAt(bits, p) <==> PageFree(t, h, p)))
  }

  lemma {:induction false} PagesAt(t: Tree, h: nat, s: int, o: nat, x: int)
    requires WellFormed(t, h) && HasNode(t, h, s, o) && 0 <= x < Pow2(o)
    ensures WellFormed(At(t, h, s, o), o)
    ensures PageFree(t, h, s + x) <==> PageFree(At(t, h, s, o), o, x)
  {
    NodeRange(t, h, s, o);
    if h != o {
      if s < Pow2(h - 1) {
        NodeRange(t.l, h - 1, s, o);
        PagesAt(t.l, h - 1, s, o, x);
      } else {
        PagesAt(t.r, h - 1, s - Pow2(h - 1), o, x);
      }
    }
  }

  lemma {:induction false} CanonicalAt(t: Tree, h: nat, s: int, o: nat)
    requires WellFormed(t, h) && HasNode(t, h, s, o) && Canonical(t)
    ensures WellFormed(At(t, h, s, o), o) && Canonical(At(t, h, s, o))
  {
    if h != o {
      if s < Pow2(h - 1) {
        CanonicalAt(t.l, h - 1, s, o);
      } else {
        CanonicalAt(t.r, h - 1, s - Pow2(h - 1), o);
      }
    }
  }

  /** If the first page under a node is free, a free block starts there. */
  lemma {:induction false} FirstBlock(t: Tree, h: nat, s: int, o: nat) returns (q: nat)
    requires WellFormed(t, h) && HasNode(t, h, s, o) && PageFree(t, h, s)
    ensures q <= o && IsLeaf(t, h, s, q, Free)
  {
    NodeRange(t, h, s, o);
    if h != o {
      if s < Pow2(h - 1) {
        NodeRange(t.l, h - 1, s, o);
        q := FirstBlock(t.l, h - 1, s, o);
      } else {
        q := FirstBlock(t.r, h - 1, s - Pow2(h - 1), o);
      }
    } else if t.Free? {
      q := h;
    } else {
      assert HasNode(t.l, h - 1, 0, h - 1);
      q := FirstBlock(t.l, h - 1, 0, h - 1);
    }
  }

  /** Take a free block. */
  lemma TakeStep(rings: seq<seq<nat>>, bits: seq<bv8>, bits': seq<bv8>, t: Tree, h: nat, s: nat, o: nat, k: nat)
    requires WellFormed(t, h) && Canonical(t) && ListsMatch(rings, t, h) && BitsMatch(bits, t, h) && Disjoint(rings)
    requires o < N_FREE_LISTS && 0 < k < |rings[o]| && rings[o][k] == NodeOf(s)
    requires BitsSet(bits, bits', s, s + Pow2(o), false)
    ensures IsLeaf(t, h, s, o, Free)
    ensures var t' := Replace(t, h, s, o, Used);
            && Canonical(t') && IsLeaf(t', h, s, o, Used) && t' != Free
            && ListsMatch(rings[o := Removed(rings[o], k)], t', h) && BitsMatch(bits', t', h)
  {
    assert Listed(rings, s, o);
    var t', rings' := Replace(t, h, s, o, Used), rings[o := Removed(rings[o], k)];
    NodeRange(t, h, s, o);
    ReplaceCanonical(t, h, s, o, Used);
    ReplacedHere(t, h, s, o, Used);
    forall q: nat, p: nat | q < N_FREE_LISTS
      ensures Listed(rings', p, q) <==> IsLeaf(t', h, p, q, Free)
    {
      assert Listed(rings, p, q) <==> IsLeaf(t, h, p, q, Free);
      ReplaceLeaves(t, h, s, o, Used, p, q, Free);
      InsideLeaf(t, h, s, o, p, q);
      MemberAfterRemove(rings, o, k, q, NodeOf(p));
      LeafRange(Used, o, p - s, q, Free);
    }
    forall p: nat | p < Pow2(h)
      ensures BitAt(bits', p) <==> PageFree(t', h, p)
    {
      ReplacePages(t, h, s, o, Used, p);
      if t == Free {
        LeafRange(t, h, s, o, Free);
      }
    }
  }

  /** A replaced node is at its place, and a proper part of the tree does not make it a leaf. */
  lemma {:induction false} ReplacedHere(t: Tree, h: nat, s: int, o: nat, sub: Tree)
    requires WellFormed(t, h) && HasNode(t, h, s, o) && WellFormed(sub, o)
    ensures HasNode(Replace(t, h, s, o, sub), h, s, o) && At(Replace(t, h, s, o, sub), h, s, o) == sub
    ensures o < h ==> Replace(t, h, s, o, sub).Split?
  {
    NodeRange(t, h, s, o);
    if h != o {
      if s < Pow2(h - 1) {
        ReplacedHere(t.l, h - 1, s, o, sub);
      } else {
        ReplacedHere(t.r, h - 1, s - Pow2(h - 1), o, sub);
      }
    }
  }

  /** The only leaf that starts inside a leaf is that leaf. */
  lemma {:induction false} InsideLeaf(t: Tree, h: nat, s: int, o: nat, s': int, o': nat)
    requires WellFormed(t, h) && HasNode(t, h, s, o) && !At(t, h, s, o).Split?
    ensures forall leaf: Tree ::
              !leaf.Split? && Within(s', s, o) && IsLeaf(t, h, s', o', leaf) ==>
                s' == s && o' == o && leaf == At(t, h, s, o)
  {
    forall leaf: Tree | !leaf.Split? && Within(s', s, o) && IsLeaf(t, h, s', o', leaf)
      ensures s' == s && o' == o && leaf == At(t, h, s, o)
    {
      LeafRange(t, h, s', o', leaf);
      NodeRange(t, h, s, o);
      if h != o {
        LeafBelow(t, h, s', o', leaf);
        if s < Pow2(h - 1) {
          NodeRange(t.l, h - 1, s, o);
          InsideLeaf(t.l, h - 1, s, o, s', o');
        } else {
          InsideLeaf(t.r, h - 1, s - Pow2(h - 1), o, s' - Pow2(h - 1), o');
        }
      }
    }
  }

  lemma MemberAfterRemove(rings: seq<seq<nat>>, r: nat, k: nat, q: nat, x: nat)
    requires Disjoint(rings) && r < |rings| && q < |rings| && k < |rings[r]|
    ensures x in rings[r := Removed(rings[r], k)][q] <==> x in rings[q] && x != rings[r][k]
  {
    var ring := rings[r];
    assert ring == ring[..k] + [ring[k]] + ring[k + 1..];
    if x == ring[k] && x in rings[q] {
      var j :| 0 <= j < |rings[q]| && rings[q][j] == x;
      assert q == r && j == k;
    }
    if q == r {
      if x in Removed(ring, k) {
        var j :| 0 <= j < |Removed(ring, k)| && Removed(ring, k)[j] == x;
        assert ring[if j < k then j else j + 1] == x;
        assert rings[r][if j < k then j else j + 1] == x && rings[r][k] == ring[k];
      }
    }
  }

  lemma MemberAfterInsert(rings: seq<seq<nat>>, r: nat, k: nat, y: nat, q: nat, x: nat)
    requires r < |rings| && q < |rings| && k < |rings[r]|
    ensures x in rings[r := Inserted(rings[r], k, y)][q] <==> x in rings[q] || (q == r && x == y)
  {
    var ring := rings[r];
    assert ring == ring[..k + 1] + ring[k + 1..];
  }

  /** An allocated block after one split: the lower half stays allocated. */
  function Halves(o: nat): (t: Tree)
    requires o > 0
    ensures WellFormed(t, o) && Canonical(t) && t == Split(Used, Free)
  {
    assert WellFormed(Used, o - 1) && WellFormed(Free, o - 1) && Canonical(Used) && Canonical(Free);
    Split(Used, Free)
  }

  /** Split an allocated block and free its upper half. */
  lemma SplitStep(rings: seq<seq<nat>>, bits: seq<bv8>, bits': seq<bv8>, t: Tree, h: nat, s: nat, o: nat)
    requires WellFormed(t, h) && Canonical(t) && ListsMatch(rings, t, h) && BitsMatch(bits, t, h)
    requires IsLeaf(t, h, s, o, Used) && 0 < o < N_FREE_LISTS && |rings[o - 1]| > 0
    requires BitsSet(bits, bits', s + Pow2(o - 1), s + Pow2(o), true)
    ensures var t', rem := Replace(t, h, s, o, Halves(o)), s + Pow2(o - 1);
            && Canonical(t') && IsLeaf(t', h, s, o - 1, Used) && t' != Free
            && (forall q: nat :: q < N_FREE_LISTS ==> !Listed(rings, rem, q))
            && ListsMatch(rings[o - 1 := Inserted(rings[o - 1], 0, NodeOf(rem))], t', h) && BitsMatch(bits', t', h)
  {
    var sub, rem := Halves(o), s + Pow2(o - 1);
    var t', rings' := Replace(t, h, s, o, sub), rings[o - 1 := Inserted(rings[o - 1], 0, NodeOf(rem))];
    NodeRange(t, h, s, o);
    ReplaceCanonical(t, h, s, o, sub);
    ReplacedHere(t, h, s, o, sub);
    ReplaceLeaves(t, h, s, o, sub, s, o - 1, Used);
    SplitLeaves(o, 0, o - 1);
    forall q: nat | q < N_FREE_LISTS
      ensures !Listed(rings, rem, q)
    {
      InsideLeaf(t, h, s, o, rem, q);
      assert Listed(rings, rem, q) <==> IsLeaf(t, h, rem, q, Free);
    }
    forall q: nat, p: nat | q < N_FREE_LISTS
      ensures Listed(rings', p, q) <==> IsLeaf(t', h, p, q, Free)
    {
      assert Listed(rings, p, q) <==> IsLeaf(t, h, p, q, Free);
      ReplaceLeaves(t, h, s, o, sub, p, q, Free);
      InsideLeaf(t, h, s, o, p, q);
      MemberAfterInsert(rings, o - 1, 0, NodeOf(rem), q, NodeOf(p));
      SplitLeaves(o, p - s, q);
    }
    forall p: nat | p < Pow2(h)
      ensures BitAt(bits', p) <==> PageFree(t', h, p)
    {
      ReplacePages(t, h, s, o, sub, p);
      if Within(p, s, o) {
        PagesAt(t, h, s, o, p - s);
      }
    }
  }

  lemma SplitLeaves(o: nat, p: int, q: nat)
    requires o > 0
    ensures IsLeaf(Halves(o), o, p, q, Free) <==> p == Pow2(o - 1) && q == o - 1
    ensures IsLeaf(Halves(o), o, p, q, Used) <==> p == 0 && q == o - 1
  {
    var t := Halves(o);
    LeafBelow(t, o, p, q, Free);
    LeafBelow(t, o, p, q, Used);
    LeafRange(Used, o - 1, p, q, Used);
    LeafRange(Used, o - 1, p, q, Free);
    LeafRange(Free, o - 1, p - Pow2(o - 1), q, Free);
    LeafRange(Free, o - 1, p - Pow2(o - 1), q, Used);
  }

  /** A block of order `q` of which the first part, of order `o`, is allocated by halving. */
  ghost function Chain(q: nat, o: nat): (t: Tree)
    requires o <= q
    ensures WellFormed(t, q) && Canonical(t) && !t.Free?
  {
    if q == o then Used else Split(Chain(q - 1, o), Free)
  }

  /** One halving more. */
  lemma {:induction false} ChainGrows(q: nat, o: nat)
    requires 0 < o <= q
    ensures HasNode(Chain(q, o), q, 0, o)
    ensures Replace(Chain(q, o), q, 0, o, Halves(o)) == Chain(q, o - 1)
  {
    if o < q {
      ChainGrows(q - 1, o);
    }
  }

  lemma {:induction false} ReplaceInside(t: Tree, h: nat, s: int, q: nat, sub: Tree, o: nat, x: Tree)
    requires WellFormed(t, h) && HasNode(t, h, s, q) && WellFormed(sub, q) && HasNode(sub, q, 0, o) && WellFormed(x, o)
    ensures HasNode(Replace(t, h, s, q, sub), h, s, o)
    ensures Replace(Replace(t, h, s, q, sub), h, s, o, x) == Replace(t, h, s, q, Replace(sub, q, 0, o, x))
  {
    NodeRange(t, h, s, q);
    NodeRange(sub, q, 0, o);
    if q < h {
      if s < Pow2(h - 1) {
        ReplaceInside(t.l, h - 1, s, q, sub, o, x);
      } else {
        ReplaceInside(t.r, h - 1, s - Pow2(h - 1), q, sub, o, x);
      }
    }
  }

  /** Splitting an allocated block inside the block of order `q` that was taken. */
  lemma SplitChain(t: Tree, h: nat, s: int, q: nat, o: nat)
    requires WellFormed(t, h) && HasNode(t, h, s, q) && 0 < o <= q
    ensures HasNode(Replace(t, h, s, q, Chain(q, o)), h, s, o)
    ensures Replace(Replace(t, h, s, q, Chain(q, o)), h, s, o, Halves(o)) == Replace(t, h, s, q, Chain(q, o - 1))
  {
    ChainGrows(q, o);
    ReplaceInside(t, h, s, q, Chain(q, o), o, Halves(o));
  }

  /** `t` is `t0` with the block of order `o` at page `s`, which was free, allocated. */
  ghost predicate Allocated(t0: Tree, t: Tree, h: nat, s: nat, o: nat)
    requires WellFormed(t0, h) && WellFormed(t, h)
  {
    && (forall p: int :: Within(p, s, o) ==> PageFree(t0, h, p))
    && (forall p: int {:trigger PageFree(t, h, p)} :: PageFree(t, h, p) <==> PageFree(t0, h, p) && !Within(p, s, o))
    && (forall p: int, q: nat {:trigger IsLeaf(t, h, p, q, Used)} ::
          IsLeaf(t, h, p, q, Used) <==> IsLeaf(t0, h, p, q, Used) || (p == s && q == o))
    && (forall q: nat :: !IsLeaf(t0, h, s, q, Used))
  }

  /** What `buddy_alloc_raw` does: a free block of the least sufficient order `q` that there is, cut
      down to order `o`. */
  ghost predicate AllocStep(t: Tree, t': Tree, h: nat, s: nat, q: nat, o: nat)
    requires WellFormed(t, h)
  {
    && o <= q <= h && IsLeaf(t, h, s, q, Free)
    && (forall p, x: int :: o <= p < q ==> !IsLeaf(t, h, x, p, Free))
    && t' == Replace(t, h, s, q, Chain(q, o))
  }

  lemma TakeAllocates(t: Tree, h: nat, s: nat, o: nat)
    requires WellFormed(t, h) && IsLeaf(t, h, s, o, Free)
    ensures Allocated(t, Replace(t, h, s, o, Used), h, s, o)
  {
    var t' := Replace(t, h, s, o, Used);
    forall p: int
      ensures Within(p, s, o) ==> PageFree(t, h, p)
      ensures PageFree(t', h, p) <==> PageFree(t, h, p) && !Within(p, s, o)
    {
      ReplacePages(t, h, s, o, Used, p);
      if Within(p, s, o) {
        LeafIsFree(t, h, s, o, p);
      }
    }
    forall p: int, q: nat
      ensures IsLeaf(t', h, p, q, Used) <==> IsLeaf(t, h, p, q, Used) || (p == s && q == o)
      ensures p == s ==> !IsLeaf(t, h, p, q, Used)
    {
      ReplaceLeaves(t, h, s, o, Used, p, q, Used);
      InsideLeaf(t, h, s, o, p, q);
      InsideLeaf(Used, o, 0, o, p - s, q);
      LeafRange(Used, o, p - s, q, Used);
    }
  }

  lemma SplitAllocates(t0: Tree, t: Tree, h: nat, s: nat, o: nat)
    requires WellFormed(t0, h) && WellFormed(t, h) && IsLeaf(t, h, s, o, Used) && o > 0
    requires Allocated(t0, t, h, s, o)
    ensures Allocated(t0, Replace(t, h, s, o, Halves(o)), h, s, o - 1)
  {
    var t' := Replace(t, h, s, o, Halves(o));
    forall p: int
      ensures PageFree(t', h, p) <==> PageFree(t0, h, p) && !Within(p, s, o - 1)
    {
      ReplacePages(t, h, s, o, Halves(o), p);
      assert PageFree(t, h, p) <==> PageFree(t0, h, p) && !Within(p, s, o);
    }
    forall p: int, q: nat
      ensures IsLeaf(t', h, p, q, Used) <==> IsLeaf(t0, h, p, q, Used) || (p == s && q == o - 1)
    {
      ReplaceLeaves(t, h, s, o, Halves(o), p, q, Used);
      InsideLeaf(t, h, s, o, p, q);
      SplitLeaves(o, p - s, q);
      assert IsLeaf(t, h, p, q, Used) <==> IsLeaf(t0, h, p, q, Used) || (p == s && q == o);
    }
  }

  // ----- Freeing -------------------------------------------------------------------------------

  /** Every merge that the loop of `buddy_free_raw` makes joins the block with a buddy that is free as
      a whole. The code looks only at the bit of the buddy's first page (line 197). */
  ghost predicate MergesOk(t: Tree, h: nat, s: int, o: nat)
    requires WellFormed(t, h) && HasNode(t, h, s, o)
    decreases h - o
  {
    NodeRange(t, h, s, o);
    o == h ||
    (NodeFamily(t, h, s, o);
     PageFree(t, h, BuddyOf(h, s, o)) ==>
       IsLeaf(t, h, BuddyOf(h, s, o), o, Free) && MergesOk(t, h, ParentOf(h, s, o), o + 1))
  }

  /** The order at which that loop stops. */
  ghost function Grown(t: Tree, h: nat, s: int, o: nat): (q: nat)
    requires WellFormed(t, h) && HasNode(t, h, s, o)
    ensures o <= q <= h
    decreases h - o
  {
    NodeRange(t, h, s, o);
    if o < h && PageFree(t, h, BuddyOf(h, s, o)) then
      NodeFamily(t, h, s, o);
      Grown(t, h, ParentOf(h, s, o), o + 1)
    else o
  }

  /** While blocks are merged: the lists still hold all free blocks outside the merged block, and
      nothing that is not a free block. */
  ghost predicate Pending(rings: seq<seq<nat>>, t: Tree, h: nat, s: int, o: nat)
    requires WellFormed(t, h)
  {
    && |rings| == N_FREE_LISTS
    && forall q: nat, p: nat {:trigger Listed(rings, p, q)} :: q < N_FREE_LISTS ==>
         && (Listed(rings, p, q) ==> IsLeaf(t, h, p, q, Free))
         && (IsLeaf(t, h, p, q, Free) && !Within(p, s, o) ==> Listed(rings, p, q))
  }

  /** ... and nothing inside the merged block either. */
  ghost predicate Absorbed(rings: seq<seq<nat>>, s: int, o: nat)
  {
    && |rings| == N_FREE_LISTS
    && forall q: nat, p: nat {:trigger Listed(rings, p, q)} ::
         q < N_FREE_LISTS && Within(p, s, o) ==> !Listed(rings, p, q)
  }

  /** Some page of the merged block is allocated and not part of the block that is being freed. */
  ghost predicate Swallowed(t: Tree, h: nat, s: int, o: nat, s0: int, o0: nat)
    requires WellFormed(t, h)
  {
    exists p :: Within(p, s, o) && !Within(p, s0, o0) && !PageFree(t, h, p)
  }

  /** No list node sits at page `s`. */
  ghost predicate Unlisted(rings: seq<seq<nat>>, s: int)
  {
    forall q: nat, p: nat {:trigger Listed(rings, p, q)} :: q < |rings| && p == s ==> !Listed(rings, p, q)
  }

  lemma StartPending(rings: seq<seq<nat>>, t: Tree, h: nat, s: int, o: nat)
    requires WellFormed(t, h) && ListsMatch(rings, t, h) && IsLeaf(t, h, s, o, Used)
    ensures Pending(rings, t, h, s, o) && Absorbed(rings, s, o) && Unlisted(rings, s)
  {
    forall q: nat, p: nat | q < N_FREE_LISTS && Within(p, s, o)
      ensures !Listed(rings, p, q)
    {
      assert Listed(rings, p, q) <==> IsLeaf(t, h, p, q, Free);
      InsideLeaf(t, h, s, o, p, q);
    }
  }

  /** The parent's pages are the block's and its buddy's. */
  lemma ParentPages(t: Tree, h: nat, s: int, o: nat, p: int)
    requires WellFormed(t, h) && HasNode(t, h, s, o) && o < h
    ensures Within(p, ParentOf(h, s, o), o + 1) <==> Within(p, s, o) || Within(p, BuddyOf(h, s, o), o)
    ensures !(Within(p, s, o) && Within(p, BuddyOf(h, s, o), o))
  {
  }

  /** One merge: take the block that starts where the buddy starts off its list. */
  lemma MergeStep(rings: seq<seq<nat>>, t: Tree, h: nat, s: int, o: nat, q: nat, k: nat)
    requires WellFormed(t, h) && HasNode(t, h, s, o) && o < h && Disjoint(rings) && Pending(rings, t, h, s, o)
    requires BuddyOf(h, s, o) >= 0 && q < N_FREE_LISTS && 0 < k < |rings[q]| && rings[q][k] == NodeOf(BuddyOf(h, s, o))
    ensures HasNode(t, h, ParentOf(h, s, o), o + 1)
    ensures var rings' := rings[q := Removed(rings[q], k)];
            && Pending(rings', t, h, ParentOf(h, s, o), o + 1)
            && (Unlisted(rings, s) ==> Unlisted(rings', ParentOf(h, s, o)))
            && (q == o && Absorbed(rings, s, o) ==> Absorbed(rings', ParentOf(h, s, o), o + 1))
  {
    var b := BuddyOf(h, s, o);
    var rings' := rings[q := Removed(rings[q], k)];
    NodeFamily(t, h, s, o);
    assert Listed(rings, b, q);
    forall r: nat, p: nat | r < N_FREE_LISTS
      ensures Listed(rings', p, r) <==> Listed(rings, p, r) && p != b
      ensures Within(p, ParentOf(h, s, o), o + 1) <==> Within(p, s, o) || Within(p, b, o)
      ensures q == o && Within(p, b, o) && Listed(rings, p, r) ==> p == b
    {
      MemberAfterRemove(rings, q, k, r, NodeOf(p));
      ParentPages(t, h, s, o, p);
      if q == o && Listed(rings, p, r) {
        InsideLeaf(t, h, b, o, p, r);
      }
    }
    assert Within(b, b, o);
  }

  /** A buddy whose first page is free but that is not free as a whole holds an allocated page. */
  lemma BuddyNotWhole(t: Tree, h: nat, s: int, o: nat, s0: int, o0: nat)
    requires WellFormed(t, h) && Canonical(t) && HasNode(t, h, s, o) && o < h
    requires !IsLeaf(t, h, BuddyOf(h, s, o), o, Free)
    requires forall p :: Within(p, s0, o0) ==> Within(p, s, o)
    ensures Swallowed(t, h, ParentOf(h, s, o), o + 1, s0, o0)
  {
    var b := BuddyOf(h, s, o);
    NodeFamily(t, h, s, o);
    CanonicalAt(t, h, b, o);
    var u := At(t, h, b, o);
    if forall x :: 0 <= x < Pow2(o) ==> PageFree(u, o, x) {
      AllFreeIsWhole(u, o);
      assert false;
    }
    var x :| 0 <= x < Pow2(o) && !PageFree(u, o, x);
    PagesAt(t, h, b, o, x);
    ParentPages(t, h, s, o, b + x);
    assert Within(b + x, ParentOf(h, s, o), o + 1) && !Within(b + x, s0, o0) && !PageFree(t, h, b + x);
  }

  /** The end of the loop, if every merge was in order: the lists and the bitmap describe the tree in
      which the block is released. */
  lemma ReleaseStep(rings: seq<seq<nat>>, bits: seq<bv8>, bits': seq<bv8>, t: Tree, h: nat, s: nat, o: nat)
    requires WellFormed(t, h) && Canonical(t) && HasNode(t, h, s, o) && o < N_FREE_LISTS && Disjoint(rings)
    requires Pending(rings, t, h, s, o) && Absorbed(rings, s, o) && |rings[o]| > 0
    requires t != Free && BitsMatch(bits, t, h) && BitsSet(bits, bits', s, s + Pow2(o), true)
    requires o < h ==> !IsLeaf(t, h, BuddyOf(h, s, o), o, Free)
    ensures var t' := Release(t, h, s, o);
            ListsMatch(rings[o := Inserted(rings[o], 0, NodeOf(s))], t', h) && BitsMatch(bits', t', h) && Canonical(t')
  {
    ReleaseStops(t, h, s, o);
    ReplaceCanonical(t, h, s, o, Free);
    var t', rings' := Replace(t, h, s, o, Free), rings[o := Inserted(rings[o], 0, NodeOf(s))];
    NodeRange(t, h, s, o);
    forall q: nat, p: nat | q < N_FREE_LISTS
      ensures Listed(rings', p, q) <==> IsLeaf(t', h, p, q, Free)
    {
      assert Listed(rings, p, q) ==> IsLeaf(t, h, p, q, Free);
      ReplaceLeaves(t, h, s, o, Free, p, q, Free);
      MemberAfterInsert(rings, o, 0, NodeOf(s), q, NodeOf(p));
      LeafRange(Free, o, p - s, q, Free);
      InsideLeaf(Free, o, 0, o, p - s, q);
    }
    forall p: nat | p < Pow2(h)
      ensures BitAt(bits', p) <==> PageFree(t', h, p)
    {
      ReplacePages(t, h, s, o, Free, p);
    }
  }
}
