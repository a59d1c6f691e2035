/** What holds over whole runs of allocations and frees, and the run in which coalescing goes wrong. */
module BuddyRuns {
  import opened Arith
  import opened BuddyTree
  import opened BuddyTheorems
  import opened BuddySteps

  /** One call: an allocation as AllocRaw makes it, or a free in which every merge is in order. */
  ghost predicate Step(t: Tree, t': Tree, h: nat): (r: bool)
    requires WellFormed(t, h)
    ensures r ==> WellFormed(t', h)
  {
    || (exists s: nat, q: nat, o: nat :: AllocStep(t, t', h, s, q, o))
    || (exists s: nat, o: nat :: FreeStep(t, t', h, s, o))
  }

  ghost predicate FreeStep(t: Tree, t': Tree, h: nat, s: nat, o: nat)
    requires WellFormed(t, h)
  {
    IsLeaf(t, h, s, o, Used) && MergesOk(t, h, s, o) && t' == Release(t, h, s, o)
  }

  /** The trees that a run of calls goes through, from the single free block on. */
  ghost predicate Run(ts: seq<Tree>, h: nat): (r: bool)
    ensures r ==> |ts| > 0 && WellFormed(ts[|ts| - 1], h)
  {
    if |ts| <= 1 then ts == [Free]
    else Run(ts[..|ts| - 1], h) && Step(ts[|ts| - 2], ts[|ts| - 1], h)
  }

  /** In every reachable state no two buddies are both free. */
  lemma {:induction false} RunsAreCanonical(ts: seq<Tree>, h: nat, i: nat)
    requires Run(ts, h) && i < |ts|
    ensures WellFormed(ts[i], h) && Canonical(ts[i])
  {
    if |ts| > 1 {
      var front, last := ts[..|ts| - 1], ts[|ts| - 1];
      if i < |ts| - 1 {
        RunsAreCanonical(front, h, i);
      } else {
        RunsAreCanonical(front, h, |ts| - 2);
        StepKeepsCanonical(ts[|ts| - 2], last, h);
      }
    }
  }

  lemma StepKeepsCanonical(t: Tree, t': Tree, h: nat)
    requires WellFormed(t, h) && Canonical(t) && Step(t, t', h)
    ensures Canonical(t')
  {
    if s: nat, q: nat, o: nat :| AllocStep(t, t', h, s, q, o) {
      ReplaceCanonical(t, h, s, q, Chain(q, o));
    } else {
      var s: nat, o: nat :| FreeStep(t, t', h, s, o);
      ReleaseCanonical(t, h, s, o);
    }
  }

  lemma RunOn(ts: seq<Tree>, h: nat, t: Tree)
    requires Run(ts, h) && Step(ts[|ts| - 1], t, h)
    ensures Run(ts + [t], h)
  {
    assert (ts + [t])[..|ts|] == ts;
  }

  /** Two runs that leave the same pages allocated leave the same free lists, as sets of blocks. */
  lemma RunsMeet(ts: seq<Tree>, us: seq<Tree>, h: nat, s: int, o: nat)
    requires Run(ts, h) && Run(us, h)
    requires var t, u := ts[|ts| - 1], us[|us| - 1];
             forall p :: 0 <= p < Pow2(h) ==> (PageFree(t, h, p) <==> PageFree(u, h, p))
    ensures IsLeaf(ts[|ts| - 1], h, s, o, Free) <==> IsLeaf(us[|us| - 1], h, s, o, Free)
  {
    hide Run, Canonical, PageFree, HasNode, IsLeaf;
    RunsAreCanonical(ts, h, |ts| - 1);
    RunsAreCanonical(us, h, |us| - 1);
    FreeBlocksDetermined(ts[|ts| - 1], us[|us| - 1], h, s, o);
  }

  /** A run that has freed everything it allocated is back at the single block of the top order. */
  lemma EverythingFreed(ts: seq<Tree>, h: nat)
    requires Run(ts, h)
    requires var t := ts[|ts| - 1]; forall s: int, o: nat :: !IsLeaf(t, h, s, o, Used)
    ensures ts[|ts| - 1] == Free
  {
    var t := ts[|ts| - 1];
    RunsAreCanonical(ts, h, |ts| - 1);
    forall p | 0 <= p < Pow2(h)
      ensures PageFree(t, h, p)
    {
      var s, o, leaf := BlockOf(t, h, p);
      if leaf.Free? {
        LeafIsFree(t, h, s, o, p);
      }
    }
    AllFreeIsWhole(t, h);
  }

  /** Every page lies in a block, free or allocated, that is aligned to its size. */
  lemma {:induction false} BlockOf(t: Tree, h: nat, p: int) returns (s: int, o: nat, leaf: Tree)
    requires WellFormed(t, h) && 0 <= p < Pow2(h)
    ensures !leaf.Split? && IsLeaf(t, h, s, o, leaf) && Within(p, s, o) && s % Pow2(o) == 0
    ensures leaf.Free? <==> PageFree(t, h, p)
  {
    if t.Split? {
      if p < Pow2(h - 1) {
        s, o, leaf := BlockOf(t.l, h - 1, p);
        NodeRange(t.l, h - 1, s, o);
      } else {
        s, o, leaf := BlockOf(t.r, h - 1, p - Pow2(h - 1));
        NodeRange(t.r, h - 1, s, o);
        s := s + Pow2(h - 1);
      }
    } else {
      s, o, leaf := 0, h, t;
    }
    NodeAligned(t, h, s, o);
  }

  /** ... and in only one. */
  lemma BlockIsUnique(t: Tree, h: nat, p: int, s: int, o: nat, leaf: Tree, s': int, o': nat, leaf': Tree)
    requires WellFormed(t, h) && !leaf.Split? && !leaf'.Split?
    requires IsLeaf(t, h, s, o, leaf) && Within(p, s, o) && IsLeaf(t, h, s', o', leaf') && Within(p, s', o')
    ensures s == s' && o == o' && leaf == leaf'
  {
    if s <= s' {
      InsideLeaf(t, h, s, o, s', o');
    } else {
      InsideLeaf(t, h, s', o', s, o);
    }
  }

  /** An allocation fails exactly if no aligned run of the requested size is free. */
  lemma FailsOnlyWithoutRun(t: Tree, h: nat, reqOrd: nat)
    requires WellFormed(t, h) && Canonical(t)
    ensures (forall s: int, q :: reqOrd <= q <= h ==> !IsLeaf(t, h, s, q, Free)) <==>
              !exists s :: FreeRun(t, h, s, reqOrd)
  {
    if s: int, q :| reqOrd <= q <= h && IsLeaf(t, h, s, q, Free) {
      BlockHoldsRun(t, h, s, q, reqOrd);
      assert FreeRun(t, h, s, reqOrd);
    }
    if s :| FreeRun(t, h, s, reqOrd) {
      var b, q := RunInBlock(t, h, s, reqOrd);
    }
  }

  ghost predicate FreeRun(t: Tree, h: nat, s: int, o: nat)
    requires WellFormed(t, h)
  {
    0 <= s && s + Pow2(o) <= Pow2(h) && s % Pow2(o) == 0 && forall p :: Within(p, s, o) ==> PageFree(t, h, p)
  }

  // ----- Allocating and freeing again ----------------------------------------------------------

  lemma {:induction false} ChainNodes(q: nat, o: nat, p: nat)
    requires o <= p <= q
    ensures HasNode(Chain(q, o), q, 0, p)
    ensures p < q ==> IsLeaf(Chain(q, o), q, Pow2(p), p, Free)
    ensures p == o ==> IsLeaf(Chain(q, o), q, 0, p, Used)
  {
    if p < q {
      ChainNodes(q - 1, o, p);
      if p == q - 1 {
        assert HasNode(Free, p, 0, p);
      } else {
        Pow2Order(q - 1, p);
      }
    }
  }

  lemma {:induction false} ChainReleased(q: nat, o: nat)
    requires o <= q
    ensures HasNode(Chain(q, o), q, 0, o) && Release(Chain(q, o), q, 0, o) == Free
  {
    ChainNodes(q, o, o);
    if o < q {
      ChainReleased(q - 1, o);
    }
  }

  /** Releasing a part of a block after which all of the block is free. */
  lemma {:induction false} ReleaseInside(t: Tree, h: nat, s: int, q: nat, sub: Tree, o: nat)
    requires WellFormed(t, h) && HasNode(t, h, s, q) && WellFormed(sub, q) && HasNode(sub, q, 0, o)
    requires Release(sub, q, 0, o) == Free
    ensures HasNode(Replace(t, h, s, q, sub), h, s, o)
    ensures Release(Replace(t, h, s, q, sub), h, s, o) == Release(t, h, s, q)
  {
    NodeRange(t, h, s, q);
    NodeRange(sub, q, 0, o);
    if q < h {
      if s < Pow2(h - 1) {
        ReleaseInside(t.l, h - 1, s, q, sub, o);
      } else {
        ReleaseInside(t.r, h - 1, s - Pow2(h - 1), q, sub, o);
      }
    }
  }

  lemma {:induction false} ReleaseOfFree(t: Tree, h: nat, s: int, q: nat)
    requires WellFormed(t, h) && Canonical(t) && IsLeaf(t, h, s, q, Free)
    ensures Release(t, h, s, q) == t
  {
    NodeRange(t, h, s, q);
    if q < h {
      if s < Pow2(h - 1) {
        ReleaseOfFree(t.l, h - 1, s, q);
      } else {
        ReleaseOfFree(t.r, h - 1, s - Pow2(h - 1), q);
      }
    }
  }

  /** Two buddies are never both free. */
  lemma BuddyOfFree(t: Tree, h: nat, s: int, q: nat)
    requires WellFormed(t, h) && Canonical(t) && IsLeaf(t, h, s, q, Free) && q < h
    ensures !IsLeaf(t, h, BuddyOf(h, s, q), q, Free)
  {
    NodeFamily(t, h, s, q);
    CanonicalAt(t, h, ParentOf(h, s, q), q + 1);
  }

  /** Freeing what was just allocated makes up for the allocation completely. All merges are in order
      exactly unless the block that was split has a buddy with a free first page. */
  lemma FreeUndoesAlloc(t: Tree, t': Tree, h: nat, s: nat, q: nat, o: nat)
    requires WellFormed(t, h) && Canonical(t) && AllocStep(t, t', h, s, q, o)
    ensures IsLeaf(t', h, s, o, Used) && Release(t', h, s, o) == t
    ensures MergesOk(t', h, s, o) <==> q == h || !PageFree(t, h, BuddyOf(h, s, q))
  {
    ChainReleased(q, o);
    ChainNodes(q, o, o);
    ReleaseInside(t, h, s, q, Chain(q, o), o);
    ReleaseOfFree(t, h, s, q);
    ReplaceLeaves(t, h, s, q, Chain(q, o), s, o, Used);
    assert Within(s, s, q);
    MergesInChain(t, h, s, q, o, o);
    ReplacedHere(t, h, s, q, Chain(q, o));
    if q < h {
      var b := BuddyOf(h, s, q);
      BuddyOfFree(t, h, s, q);
      ReplacePages(t, h, s, q, Chain(q, o), b);
      ReplaceLeaves(t, h, s, q, Chain(q, o), b, q, Free);
    }
  }

  /** Up to the block that was split, every merge is in order. */
  lemma {:induction false} MergesInChain(t: Tree, h: nat, s: nat, q: nat, o: nat, p: nat)
    requires WellFormed(t, h) && HasNode(t, h, s, q) && o <= p <= q
    ensures var t' := Replace(t, h, s, q, Chain(q, o));
            && HasNode(t', h, s, p) && HasNode(t', h, s, q)
            && (MergesOk(t', h, s, p) <==> MergesOk(t', h, s, q))
    decreases q - p
  {
    var t' := Replace(t, h, s, q, Chain(q, o));
    ChainNodes(q, o, p);
    ReplaceInside(t, h, s, q, Chain(q, o), p, Used);
    if p < q {
      MergesInChain(t, h, s, q, o, p + 1);
      NodeRange(t', h, s, q);
      NodeRange(t', h, s, p);
      LeftInChain(t', h, s, q, p);
      var b := s + Pow2(p);
      assert BuddyOf(h, s, p) == b && ParentOf(h, s, p) == s;
      Pow2Order(p + 1, q);
      assert Within(b, s, q);
      ReplaceLeaves(t, h, s, q, Chain(q, o), b, p, Free);
      LeafIsFree(t', h, b, p, b);
    }
  }

  lemma LeftInChain(t: Tree, h: nat, s: nat, q: nat, p: nat)
    requires WellFormed(t, h) && HasNode(t, h, s, q) && HasNode(t, h, s, p) && p < q <= h
    ensures !IsRight(h, s, p)
  {
    NodeAligned(t, h, s, q);
    SizeMultiple(p + 1, q);
    var k: nat :| k > 0 && Pow2(q) == k * Pow2(p + 1);
    MultipleOfMultiple(s, Pow2(p + 1), k);
    SideByRemainder(t, h, s, p);
  }

  // ----- The witness ---------------------------------------------------------------------------

  /** Four pages: allocate page 0, page 1 and pages 2 to 3, free page 0, then free pages 2 to 3. The
      last call merges with pages 0 to 1, of which only page 0 is free. */
  lemma FourPages()
    ensures var ts := [Free, Split(Split(Used, Free), Free), Split(Split(Used, Used), Free),
                       Split(Split(Used, Used), Used),
                       Split(Split(Free, Used), Used)];
            Run(ts, 2) && IsLeaf(ts[4], 2, 2, 1, Used) && !MergesOk(ts[4], 2, 2, 1) && !PageFree(ts[4], 2, 1)
  {
    var t0, t1 := Free, Split(Split(Used, Free), Free);
    var t2, t3, t4 := Split(Split(Used, Used), Free), Split(Split(Used, Used), Used), Split(Split(Free, Used), Used);
    Small(t0); Small(t1); Small(t2); Small(t3); Small(t4);
    // Page 0, page 1, and pages 2 and 3.
    assert Chain(1, 0) == Split(Used, Free) && Chain(2, 0) == t1;
    assert AllocStep(t0, t1, 2, 0, 2, 0);
    assert Chain(0, 0) == Used && Replace(t1, 2, 1, 0, Used) == t2;
    assert AllocStep(t1, t2, 2, 1, 0, 0);
    assert Chain(1, 1) == Used && Replace(t2, 2, 2, 1, Used) == t3;
    assert AllocStep(t2, t3, 2, 2, 1, 1);
    // Page 0 again: its buddy, page 1, is allocated.
    assert FreeStep(t3, t4, 2, 0, 0);
    // Pages 2 and 3: the first page of the buddy is free, the buddy as a whole is not.
    assert BuddyOf(2, 2, 1) == 0;
    assert PageFree(t4, 2, 0) && !IsLeaf(t4, 2, 0, 1, Free);
    FiveTrees(t1, t2, t3, t4);
  }

  lemma FiveTrees(t1: Tree, t2: Tree, t3: Tree, t4: Tree)
    requires WellFormed(t1, 2) && WellFormed(t2, 2) && WellFormed(t3, 2)
    requires Step(Free, t1, 2) && Step(t1, t2, 2) && Step(t2, t3, 2) && Step(t3, t4, 2)
    ensures Run([Free, t1, t2, t3, t4], 2)
  {
    hide Step;
    RunOn([Free], 2, t1);
    assert [Free] + [t1] == [Free, t1];
    RunOn([Free, t1], 2, t2);
    assert [Free, t1] + [t2] == [Free, t1, t2];
    RunOn([Free, t1, t2], 2, t3);
    assert [Free, t1, t2] + [t3] == [Free, t1, t2, t3];
    RunOn([Free, t1, t2, t3], 2, t4);
    assert [Free, t1, t2, t3] + [t4] == [Free, t1, t2, t3, t4];
  }

  lemma Small(t: Tree)
    requires !t.Split? || (t.Split? && (t.l.Split? ==> !t.l.l.Split? && !t.l.r.Split?) && !t.r.Split?)
    ensures WellFormed(t, 2)
    ensures t.Split? && t.l.Split? ==>
              forall leaf: Tree :: !leaf.Split? ==>
                && (IsLeaf(t, 2, 0, 0, leaf) <==> t.l.l == leaf) && (IsLeaf(t, 2, 1, 0, leaf) <==> t.l.r == leaf)
                && (IsLeaf(t, 2, 2, 1, leaf) <==> t.r == leaf)
  {
    if t.Split? {
      assert WellFormed(t.r, 1);
      if t.l.Split? {
        assert WellFormed(t.l.l, 0) && WellFormed(t.l.r, 0);
        assert Pow2(0) == 1 && Pow2(1) == 2;
        assert HasNode(t.l, 1, 0, 0) && HasNode(t.l, 1, 1, 0) && HasNode(t.r, 1, 0, 1);
        assert HasNode(t, 2, 0, 0) && HasNode(t, 2, 1, 0) && HasNode(t, 2, 2, 1);
        assert At(t, 2, 0, 0) == At(t.l, 1, 0, 0) == t.l.l;
        assert At(t, 2, 1, 0) == At(t.l, 1, 1, 0) == At(t.l.r, 0, 0, 0) == t.l.r;
        assert At(t, 2, 2, 1) == At(t.r, 1, 0, 1) == t.r;
      }
    }
  }
}
