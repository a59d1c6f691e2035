/** The buddy system as a binary tree. A tree of order `h` describes 2^h pages; its leaves are the
    blocks. Alignment, disjointness and coverage of the blocks are built into the shape. */
module BuddyTree {
  import opened Arith

  datatype Tree = Free | Used | Split(l: Tree, r: Tree)

  ghost predicate WellFormed(t: Tree, h: nat)
  {
    t.Split? ==> h > 0 && WellFormed(t.l, h - 1) && WellFormed(t.r, h - 1)
  }

  /** No two buddies are both free: they would have been merged. */
  ghost predicate Canonical(t: Tree)
  {
    t.Split? ==> Canonical(t.l) && Canonical(t.r) && !(t.l.Free? && t.r.Free?)
  }

  /** Is page `p` in a free block? */
  ghost predicate PageFree(t: Tree, h: nat, p: int)
    requires WellFormed(t, h)
  {
    match t
    case Free => 0 <= p < Pow2(h)
    case Used => false
    case Split(l, r) => if p < Pow2(h - 1) then PageFree(l, h - 1, p) else PageFree(r, h - 1, p - Pow2(h - 1))
  }

  /** The subtree for the block of order `o` at page `s`, if blocks are split that far. */
  ghost predicate HasNode(t: Tree, h: nat, s: int, o: nat)
    requires WellFormed(t, h)
  {
    if h == o then s == 0
    else t.Split? && if s < Pow2(h - 1) then HasNode(t.l, h - 1, s, o) else HasNode(t.r, h - 1, s - Pow2(h - 1), o)
  }

  ghost function At(t: Tree, h: nat, s: int, o: nat): Tree
    requires WellFormed(t, h) && HasNode(t, h, s, o)
  {
    if h == o then t
    else if s < Pow2(h - 1) then At(t.l, h - 1, s, o) else At(t.r, h - 1, s - Pow2(h - 1), o)
  }

  /** The block of order `o` at page `s` is a leaf of kind `leaf`. */
  ghost predicate IsLeaf(t: Tree, h: nat, s: int, o: nat, leaf: Tree)
    requires WellFormed(t, h)
  {
    HasNode(t, h, s, o) && At(t, h, s, o) == leaf
  }

  ghost function Replace(t: Tree, h: nat, s: int, o: nat, sub: Tree): (t': Tree)
    requires WellFormed(t, h) && HasNode(t, h, s, o) && WellFormed(sub, o)
    ensures WellFormed(t', h)
  {
    if h == o then sub
    else if s < Pow2(h - 1) then Split(Replace(t.l, h - 1, s, o, sub), t.r)
    else Split(t.l, Replace(t.r, h - 1, s - Pow2(h - 1), o, sub))
  }

  /** Is the block of order `o` at page `s` the right half of its parent? */
  predicate IsRight(h: nat, s: int, o: nat)
    requires o < h
  {
    if o == h - 1 then s >= Pow2(o)
    else IsRight(h - 1, if s < Pow2(h - 1) then s else s - Pow2(h - 1), o)
  }

  function BuddyOf(h: nat, s: int, o: nat): int
    requires o < h
  {
    if IsRight(h, s, o) then s - Pow2(o) else s + Pow2(o)
  }

  function ParentOf(h: nat, s: int, o: nat): int
    requires o < h
  {
    if IsRight(h, s, o) then s - Pow2(o) else s
  }

  /** Free the block at a node and merge upwards as long as the buddy is free: the ideal. */
  ghost function Release(t: Tree, h: nat, s: int, o: nat): (t': Tree)
    requires WellFormed(t, h) && HasNode(t, h, s, o)
    ensures WellFormed(t', h)
  {
    if h == o then Free
    else
      var l := if s < Pow2(h - 1) then Release(t.l, h - 1, s, o) else t.l;
      var r := if s < Pow2(h - 1) then t.r else Release(t.r, h - 1, s - Pow2(h - 1), o);
      if l.Free? && r.Free? then Free else Split(l, r)
  }

  // ----- Positions -----------------------------------------------------------------------------

  lemma {:induction false} SizeMultiple(o: nat, h: nat)
    requires o <= h
    ensures exists k: nat :: k > 0 && Pow2(h) == k * Pow2(o)
  {
    if o == h {
      assert Pow2(h) == 1 * Pow2(o);
    } else {
      SizeMultiple(o, h - 1);
      var k: nat :| k > 0 && Pow2(h - 1) == k * Pow2(o);
      assert Pow2(h) == (2 * k) * Pow2(o);
    }
  }

  lemma ModShift(x: int, k: nat, d: nat)
    requires d > 0
    ensures (x + k * d) % d == x % d
  {
    assert x == d * (x / d) + x % d;
    assert x + k * d == d * (x / d + k) + x % d;
    DivUnique(x + k * d, d, x / d + k, x % d);
  }

  /** Nodes lie inside the tree. */
  lemma {:induction false} NodeRange(t: Tree, h: nat, s: int, o: nat)
    requires WellFormed(t, h) && HasNode(t, h, s, o)
    ensures o <= h && 0 <= s && s + Pow2(o) <= Pow2(h)
  {
    if o == h {
    } else if s < Pow2(h - 1) {
      NodeRange(t.l, h - 1, s, o);
    } else {
      NodeRange(t.r, h - 1, s - Pow2(h - 1), o);
    }
  }

  /** A node other than the root has a buddy, and its parent is split into the two. */
  lemma {:induction false} NodeFamily(t: Tree, h: nat, s: int, o: nat)
    requires WellFormed(t, h) && HasNode(t, h, s, o) && o < h
    ensures HasNode(t, h, ParentOf(h, s, o), o + 1) && HasNode(t, h, BuddyOf(h, s, o), o)
    ensures BuddyOf(h, BuddyOf(h, s, o), o) == s && ParentOf(h, BuddyOf(h, s, o), o) == ParentOf(h, s, o)
    ensures At(t, h, ParentOf(h, s, o), o + 1) ==
              if IsRight(h, s, o) then Split(At(t, h, BuddyOf(h, s, o), o), At(t, h, s, o))
              else Split(At(t, h, s, o), At(t, h, BuddyOf(h, s, o), o))
  {
    NodeRange(t, h, s, o);
    if o == h - 1 {
      assert HasNode(t, h, 0, h) && At(t, h, 0, h) == t;
    } else if s < Pow2(h - 1) {
      NodeFamily(t.l, h - 1, s, o);
      NodeRange(t.l, h - 1, BuddyOf(h - 1, s, o), o);
    } else {
      NodeFamily(t.r, h - 1, s - Pow2(h - 1), o);
      NodeRange(t.r, h - 1, BuddyOf(h - 1, s - Pow2(h - 1), o), o);
    }
  }

  /** Nodes are aligned to their size. */
  lemma {:induction false} NodeAligned(t: Tree, h: nat, s: int, o: nat)
    requires WellFormed(t, h) && HasNode(t, h, s, o)
    ensures s % Pow2(o) == 0
  {
    NodeRange(t, h, s, o);
    if o == h {
      SmallMod(0, Pow2(o));
    } else if s < Pow2(h - 1) {
      NodeAligned(t.l, h - 1, s, o);
    } else {
      NodeAligned(t.r, h - 1, s - Pow2(h - 1), o);
      NodeRange(t.r, h - 1, s - Pow2(h - 1), o);
      ShiftBySize(s - Pow2(h - 1), h - 1, o);
    }
  }

  /** The remainder modulo the next size tells the side: this is the arithmetic of `get_buddy`. */
  lemma {:induction false} SideByRemainder(t: Tree, h: nat, s: int, o: nat)
    requires WellFormed(t, h) && HasNode(t, h, s, o) && o < h
    ensures s % Pow2(o + 1) == if IsRight(h, s, o) then Pow2(o) else 0
  {
    if o == h - 1 {
      SmallMod(0, Pow2(o + 1));
      SmallMod(Pow2(o), Pow2(o + 1));
    } else if s < Pow2(h - 1) {
      SideByRemainder(t.l, h - 1, s, o);
    } else {
      SideByRemainder(t.r, h - 1, s - Pow2(h - 1), o);
      ShiftBySize(s - Pow2(h - 1), h - 1, o + 1);
    }
  }

  lemma SmallMod(x: nat, d: nat)
    requires x < d
    ensures x % d == x
  {
    DivUnique(x, d, 0, x);
  }

  lemma ShiftBySize(x: int, h: nat, o: nat)
    requires o <= h
    ensures (x + Pow2(h)) % Pow2(o) == x % Pow2(o)
  {
    SizeMultiple(o, h);
    var k: nat :| k > 0 && Pow2(h) == k * Pow2(o);
    ModShift(x, k, Pow2(o));
  }

  // ----- Replacing a node ----------------------------------------------------------------------

  predicate Within(x: int, s: int, o: nat)
  {
    s <= x < s + Pow2(o)
  }

  /** Replacing a node changes the blocks inside it to those of the new subtree, and no others. */
  lemma {:induction false} ReplaceLeaves(t: Tree, h: nat, s: int, o: nat, sub: Tree, s': int, o': nat, leaf: Tree)
    requires WellFormed(t, h) && HasNode(t, h, s, o) && WellFormed(sub, o) && !leaf.Split?
    ensures IsLeaf(Replace(t, h, s, o, sub), h, s', o', leaf) <==>
              if Within(s', s, o) then IsLeaf(sub, o, s' - s, o', leaf) else IsLeaf(t, h, s', o', leaf)
  {
    var t' := Replace(t, h, s, o, sub);
    NodeRange(t, h, s, o);
    LeafRange(sub, o, s' - s, o', leaf);
    if h == o {
      LeafRange(t', h, s', o', leaf);
      LeafRange(t, h, s', o', leaf);
    } else {
      LeafBelow(t, h, s', o', leaf);
      LeafBelow(t', h, s', o', leaf);
      if s < Pow2(h - 1) {
        NodeRange(t.l, h - 1, s, o);
        ReplaceLeaves(t.l, h - 1, s, o, sub, s', o', leaf);
      } else {
        NodeRange(t.r, h - 1, s - Pow2(h - 1), o);
        ReplaceLeaves(t.r, h - 1, s - Pow2(h - 1), o, sub, s' - Pow2(h - 1), o', leaf);
      }
    }
  }

  lemma LeafBelow(t: Tree, h: nat, s: int, o: nat, leaf: Tree)
    requires WellFormed(t, h) && t.Split? && !leaf.Split?
    ensures IsLeaf(t, h, s, o, leaf) <==>
              && o < h
              && if s < Pow2(h - 1) then IsLeaf(t.l, h - 1, s, o, leaf)
                 else IsLeaf(t.r, h - 1, s - Pow2(h - 1), o, leaf)
  {
    LeafRange(t, h, s, o, leaf);
    LeafRange(t.l, h - 1, s, o, leaf);
    LeafRange(t.r, h - 1, s - Pow2(h - 1), o, leaf);
  }

  lemma LeafRange(t: Tree, h: nat, s: int, o: nat, leaf: Tree)
    requires WellFormed(t, h)
    ensures IsLeaf(t, h, s, o, leaf) ==> o <= h && 0 <= s && s + Pow2(o) <= Pow2(h)
  {
    if IsLeaf(t, h, s, o, leaf) {
      NodeRange(t, h, s, o);
    }
  }

  lemma {:induction false} ReplacePages(t: Tree, h: nat, s: int, o: nat, sub: Tree, p: int)
    requires WellFormed(t, h) && HasNode(t, h, s, o) && WellFormed(sub, o)
    ensures PageFree(Replace(t, h, s, o, sub), h, p) <==>
              if Within(p, s, o) then PageFree(sub, o, p - s) else PageFree(t, h, p)
  {
    if h == o {
      PagesInside(t, h, p);
      PagesInside(sub, h, p);
    } else if s < Pow2(h - 1) {
      ReplacePages(t.l, h - 1, s, o, sub, p);
      NodeRange(t.l, h - 1, s, o);
    } else {
      ReplacePages(t.r, h - 1, s - Pow2(h - 1), o, sub, p - Pow2(h - 1));
      NodeRange(t.r, h - 1, s - Pow2(h - 1), o);
    }
  }

  lemma {:induction false} PagesInside(t: Tree, h: nat, p: int)
    requires WellFormed(t, h)
    ensures PageFree(t, h, p) ==> 0 <= p < Pow2(h)
  {
    if t.Split? {
      PagesInside(t.l, h - 1, p);
      PagesInside(t.r, h - 1, p - Pow2(h - 1));
    }
  }

  lemma {:induction false} ReplaceCanonical(t: Tree, h: nat, s: int, o: nat, sub: Tree)
    requires WellFormed(t, h) && HasNode(t, h, s, o) && WellFormed(sub, o)
    requires Canonical(t) && Canonical(sub)
    requires sub.Free? && o < h ==> !IsLeaf(t, h, BuddyOf(h, s, o), o, Free)
    ensures Canonical(Replace(t, h, s, o, sub))
    ensures o < h ==> Replace(t, h, s, o, sub).Split?
  {
    NodeRange(t, h, s, o);
    if o < h {
      BuddyBelow(t, h, s, o, Free);
      if s < Pow2(h - 1) {
        ReplaceCanonical(t.l, h - 1, s, o, sub);
      } else {
        ReplaceCanonical(t.r, h - 1, s - Pow2(h - 1), o, sub);
      }
    }
  }

  /** Whether the buddy is a leaf shows in the half in which the node lies, or in the other half if
      the node is itself a half. */
  lemma BuddyBelow(t: Tree, h: nat, s: int, o: nat, leaf: Tree)
    requires WellFormed(t, h) && HasNode(t, h, s, o) && o < h
    ensures s < Pow2(h - 1) ==>
              (IsLeaf(t, h, BuddyOf(h, s, o), o, leaf) <==>
                 if o == h - 1 then t.r == leaf else IsLeaf(t.l, h - 1, BuddyOf(h - 1, s, o), o, leaf))
    ensures s >= Pow2(h - 1) ==>
              (IsLeaf(t, h, BuddyOf(h, s, o), o, leaf) <==>
                 if o == h - 1 then t.l == leaf else IsLeaf(t.r, h - 1, BuddyOf(h - 1, s - Pow2(h - 1), o), o, leaf))
  {
    NodeRange(t, h, s, o);
    if o == h - 1 {
      assert HasNode(t.l, h - 1, 0, o) && At(t.l, h - 1, 0, o) == t.l;
      assert HasNode(t.r, h - 1, 0, o) && At(t.r, h - 1, 0, o) == t.r;
    } else if s < Pow2(h - 1) {
      NodeFamily(t.l, h - 1, s, o);
      NodeRange(t.l, h - 1, BuddyOf(h - 1, s, o), o);
    } else {
      NodeFamily(t.r, h - 1, s - Pow2(h - 1), o);
      NodeRange(t.r, h - 1, BuddyOf(h - 1, s - Pow2(h - 1), o), o);
    }
  }

  /** One merge: releasing a block whose buddy is free is releasing their parent. */
  lemma {:induction false} ReleaseMerges(t: Tree, h: nat, s: int, o: nat)
    requires WellFormed(t, h) && HasNode(t, h, s, o) && o < h
    requires IsLeaf(t, h, BuddyOf(h, s, o), o, Free)
    ensures HasNode(t, h, ParentOf(h, s, o), o + 1)
    ensures Release(t, h, s, o) == Release(t, h, ParentOf(h, s, o), o + 1)
  {
    NodeFamily(t, h, s, o);
    NodeRange(t, h, s, o);
    if o == h - 1 {
      NodeRange(t, h, BuddyOf(h, s, o), o);
    } else if s < Pow2(h - 1) {
      NodeFamily(t.l, h - 1, s, o);
      NodeRange(t.l, h - 1, BuddyOf(h - 1, s, o), o);
      NodeRange(t.l, h - 1, ParentOf(h - 1, s, o), o + 1);
      ReleaseMerges(t.l, h - 1, s, o);
    } else {
      NodeFamily(t.r, h - 1, s - Pow2(h - 1), o);
      NodeRange(t.r, h - 1, BuddyOf(h - 1, s - Pow2(h - 1), o), o);
      NodeRange(t.r, h - 1, ParentOf(h - 1, s - Pow2(h - 1), o), o + 1);
      ReleaseMerges(t.r, h - 1, s - Pow2(h - 1), o);
    }
  }

  /** No merge: without a free buddy, releasing a block just makes it free. */
  lemma {:induction false} ReleaseStops(t: Tree, h: nat, s: int, o: nat)
    requires WellFormed(t, h) && HasNode(t, h, s, o)
    requires o < h ==> !IsLeaf(t, h, BuddyOf(h, s, o), o, Free)
    ensures Release(t, h, s, o) == Replace(t, h, s, o, Free)
    ensures o < h ==> Release(t, h, s, o).Split?
  {
    NodeRange(t, h, s, o);
    if o < h {
      BuddyBelow(t, h, s, o, Free);
      if s < Pow2(h - 1) {
        ReleaseStops(t.l, h - 1, s, o);
      } else {
        ReleaseStops(t.r, h - 1, s - Pow2(h - 1), o);
      }
    }
  }
}
