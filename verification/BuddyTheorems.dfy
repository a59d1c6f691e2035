/** What canonical trees give: free lists determined by the allocated pages, and no allocation that
    fails while a fitting run of pages is free. */
module BuddyTheorems {
  import opened Arith
  import opened BuddyTree

  /** A canonical tree without allocated pages is one free block. */
  lemma {:induction false} AllFreeIsWhole(t: Tree, h: nat)
    requires WellFormed(t, h) && Canonical(t)
    requires forall p :: 0 <= p < Pow2(h) ==> PageFree(t, h, p)
    ensures t == Free
  {
    if t.Split? {
      var half := h - 1;
      forall p | 0 <= p < Pow2(half)
        ensures PageFree(t.l, half, p) && PageFree(t.r, half, p)
      {
        assert PageFree(t, h, p) && PageFree(t, h, p + Pow2(h - 1));
      }
      AllFreeIsWhole(t.l, h - 1);
      AllFreeIsWhole(t.r, h - 1);
    } else {
      assert PageFree(t, h, 0);
    }
  }

  /** The free blocks depend only on which pages are free. */
  lemma {:induction false} FreeBlocksDetermined(t: Tree, u: Tree, h: nat, s: int, o: nat)
    requires WellFormed(t, h) && Canonical(t) && WellFormed(u, h) && Canonical(u)
    requires forall p :: 0 <= p < Pow2(h) ==> (PageFree(t, h, p) <==> PageFree(u, h, p))
    ensures IsLeaf(t, h, s, o, Free) <==> IsLeaf(u, h, s, o, Free)
  {
    if t.Free? || u.Free? {
      assert t.Free? ==> forall p :: 0 <= p < Pow2(h) ==> PageFree(t, h, p);
      assert u.Free? ==> forall p :: 0 <= p < Pow2(h) ==> PageFree(u, h, p);
      AllFreeIsWhole(t, h);
      AllFreeIsWhole(u, h);
    } else if t.Split? && u.Split? {
      var half := h - 1;
      forall p | 0 <= p < Pow2(half)
        ensures PageFree(t.l, half, p) <==> PageFree(u.l, half, p)
        ensures PageFree(t.r, half, p) <==> PageFree(u.r, half, p)
      {
        assert PageFree(t, h, p) <==> PageFree(u, h, p);
        assert PageFree(t, h, p + Pow2(h - 1)) <==> PageFree(u, h, p + Pow2(h - 1));
      }
      LeafBelow(t, h, s, o, Free);
      LeafBelow(u, h, s, o, Free);
      if s < Pow2(h - 1) {
        FreeBlocksDetermined(t.l, u.l, h - 1, s, o);
      } else {
        FreeBlocksDetermined(t.r, u.r, h - 1, s - Pow2(h - 1), o);
      }
    } else {
      // One of them is a single allocated block, so neither has a free page.
      assert forall p :: 0 <= p < Pow2(h) ==> !PageFree(t, h, p) && !PageFree(u, h, p);
      NoFreePageNoLeaf(t, h, s, o);
      NoFreePageNoLeaf(u, h, s, o);
    }
  }

  lemma {:induction false} LeafIsFree(t: Tree, h: nat, s: int, o: nat, p: int)
    requires WellFormed(t, h) && IsLeaf(t, h, s, o, Free) && Within(p, s, o)
    ensures 0 <= p < Pow2(h) && PageFree(t, h, p)
  {
    NodeRange(t, h, s, o);
    if h != o {
      if s < Pow2(h - 1) {
        NodeRange(t.l, h - 1, s, o);
        LeafIsFree(t.l, h - 1, s, o, p);
      } else {
        LeafIsFree(t.r, h - 1, s - Pow2(h - 1), o, p - Pow2(h - 1));
      }
    }
  }

  lemma NoFreePageNoLeaf(t: Tree, h: nat, s: int, o: nat)
    requires WellFormed(t, h)
    requires forall p :: 0 <= p < Pow2(h) ==> !PageFree(t, h, p)
    ensures !IsLeaf(t, h, s, o, Free)
  {
    if IsLeaf(t, h, s, o, Free) {
      LeafIsFree(t, h, s, o, s);
    }
  }

  /** An aligned run of free pages lies inside one free block. */
  lemma {:induction false} RunInBlock(t: Tree, h: nat, s: int, o: nat) returns (b: int, q: nat)
    requires WellFormed(t, h) && Canonical(t)
    requires 0 <= s && s + Pow2(o) <= Pow2(h) && s % Pow2(o) == 0
    requires forall p :: Within(p, s, o) ==> PageFree(t, h, p)
    ensures o <= q <= h && IsLeaf(t, h, b, q, Free)
    ensures b <= s && s + Pow2(o) <= b + Pow2(q)
  {
    assert Within(s, s, o);
    match t
    case Free =>
      Pow2Order(o, h);
      b, q := 0, h;
    case Used =>
      assert false;
    case Split(l, r) =>
      if Pow2(o) >= Pow2(h) {
        AllFreeIsWhole(t, h);
        assert false;
      }
      Pow2Order(h, o);
      StaysInHalf(s, o, h);
      if s < Pow2(h - 1) {
        forall p | Within(p, s, o)
          ensures PageFree(l, h - 1, p)
        {
          assert PageFree(t, h, p);
        }
        b, q := RunInBlock(l, h - 1, s, o);
        NodeRange(l, h - 1, b, q);
      } else {
        var s' := s - Pow2(h - 1);
        forall p | Within(p, s', o)
          ensures PageFree(r, h - 1, p)
        {
          assert PageFree(t, h, p + Pow2(h - 1));
        }
        ShiftBySize(s', h - 1, o);
        b, q := RunInBlock(r, h - 1, s', o);
        NodeRange(r, h - 1, b, q);
        b := b + Pow2(h - 1);
      }
  }

  /** An aligned block that is smaller than the whole does not straddle the middle. */
  lemma StaysInHalf(s: int, o: nat, h: nat)
    requires 0 <= s && o < h && s % Pow2(o) == 0
    ensures s < Pow2(h - 1) ==> s + Pow2(o) <= Pow2(h - 1)
  {
    SizeMultiple(o, h - 1);
    var k: nat :| k > 0 && Pow2(h - 1) == k * Pow2(o);
    var m := s / Pow2(o);
    assert s == Pow2(o) * m;
    if s < Pow2(h - 1) {
      assert k * Pow2(o) == Pow2(o) * k;
      NextMultiple(Pow2(o), m, k);
    }
  }

  /** A free block of sufficient order holds such a run: its own first 2^o pages. */
  lemma BlockHoldsRun(t: Tree, h: nat, b: int, q: nat, o: nat)
    requires WellFormed(t, h) && IsLeaf(t, h, b, q, Free) && o <= q
    ensures 0 <= b && b + Pow2(o) <= Pow2(h) && b % Pow2(o) == 0
    ensures forall p :: Within(p, b, o) ==> PageFree(t, h, p)
  {
    Pow2Order(o, q);
    NodeRange(t, h, b, q);
    NodeAligned(t, h, b, q);
    SizeMultiple(o, q);
    var k: nat :| k > 0 && Pow2(q) == k * Pow2(o);
    MultipleOfMultiple(b, Pow2(o), k);
    forall p | Within(p, b, o)
      ensures PageFree(t, h, p)
    {
      LeafIsFree(t, h, b, q, p);
    }
  }

  /** Releasing frees the pages of the block and no others, whatever merges follow. */
  lemma {:induction false} ReleasePages(t: Tree, h: nat, s: int, o: nat, p: int)
    requires WellFormed(t, h) && HasNode(t, h, s, o) && 0 <= p < Pow2(h)
    ensures PageFree(Release(t, h, s, o), h, p) <==> Within(p, s, o) || PageFree(t, h, p)
  {
    NodeRange(t, h, s, o);
    if h != o {
      if s < Pow2(h - 1) {
        NodeRange(t.l, h - 1, s, o);
        if p < Pow2(h - 1) {
          ReleasePages(t.l, h - 1, s, o, p);
        }
      } else if p >= Pow2(h - 1) {
        ReleasePages(t.r, h - 1, s - Pow2(h - 1), o, p - Pow2(h - 1));
      }
    }
  }

  lemma {:induction false} ReleaseCanonical(t: Tree, h: nat, s: int, o: nat)
    requires WellFormed(t, h) && HasNode(t, h, s, o) && Canonical(t)
    ensures Canonical(Release(t, h, s, o))
  {
    if h != o {
      if s < Pow2(h - 1) {
        ReleaseCanonical(t.l, h - 1, s, o);
      } else {
        ReleaseCanonical(t.r, h - 1, s - Pow2(h - 1), o);
      }
    }
  }

  /** Releasing a block leaves every other allocated block allocated. */
  lemma {:induction false} ReleaseKeepsOthers(t: Tree, h: nat, s: int, o: nat, s': int, o': nat)
    requires WellFormed(t, h) && IsLeaf(t, h, s, o, Used)
    ensures IsLeaf(Release(t, h, s, o), h, s', o', Used) <==> IsLeaf(t, h, s', o', Used) && (s', o') != (s, o)
  {
    var u := Release(t, h, s, o);
    NodeRange(t, h, s, o);
    if h == o {
      LeafRange(t, h, s', o', Used);
      LeafRange(u, h, s', o', Used);
    } else {
      LeafBelow(t, h, s', o', Used);
      if s < Pow2(h - 1) {
        NodeRange(t.l, h - 1, s, o);
        ReleaseKeepsOthers(t.l, h - 1, s, o, s', o');
      } else {
        ReleaseKeepsOthers(t.r, h - 1, s - Pow2(h - 1), o, s' - Pow2(h - 1), o');
      }
      LeafRange(t, h, s', o', Used);
      if u.Split? {
        LeafBelow(u, h, s', o', Used);
      }
    }
  }
}
