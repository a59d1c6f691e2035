/** The intrusive doubly linked lists of include/tx/list.h. Nodes are named by numbers; the first
    `heads` of them are list heads. A list is a ring that starts at its head. */
module DLists {

  /** The position after `j` in a ring of `n` nodes. */
  function Succ(j: nat, n: nat): (k: nat)
    requires j < n
    ensures k < n
  {
    if j + 1 < n then j + 1 else 0
  }

  /** Following `next` from any node of the ring, or `prev` backwards, leads through the ring. */
  ghost predicate IsRing(next: seq<nat>, prev: seq<nat>, ring: seq<nat>)
    requires |next| == |prev|
  {
    && |ring| > 0
    && (forall j :: 0 <= j < |ring| ==> ring[j] < |next|)
    && (forall j :: 0 <= j < |ring| ==> LinkedAt(next, prev, ring, j))
  }

  ghost predicate LinkedAt(next: seq<nat>, prev: seq<nat>, ring: seq<nat>, j: nat)
    requires |next| == |prev| && j < |ring| && forall j :: 0 <= j < |ring| ==> ring[j] < |next|
  {
    next[ring[j]] == ring[Succ(j, |ring|)] && prev[ring[Succ(j, |ring|)]] == ring[j]
  }

  /** No node occurs twice, in one ring or in two. */
  ghost predicate Disjoint(rings: seq<seq<nat>>)
  {
    forall r, j, s, k {:trigger rings[r][j], rings[s][k]} ::
      0 <= r < |rings| && 0 <= s < |rings| && 0 <= j < |rings[r]| && 0 <= k < |rings[s]| && rings[r][j] == rings[s][k]
      ==> r == s && j == k
  }

  ghost predicate InRing(rings: seq<seq<nat>>, x: nat)
  {
    exists r :: 0 <= r < |rings| && x in rings[r]
  }

  ghost predicate AllRings(next: seq<nat>, prev: seq<nat>, rings: seq<seq<nat>>)
    requires |next| == |prev|
  {
    && Disjoint(rings)
    && (forall r :: 0 <= r < |rings| ==> IsRing(next, prev, rings[r]))
    && (forall r :: 0 <= r < |rings| ==> rings[r][0] == r)
  }

  class Links {
    const next: array<nat>
    const prev: array<nat>
    ghost var rings: seq<seq<nat>>

    ghost predicate Valid()
      reads this, next, prev
    {
      && next != prev && next.Length == prev.Length
      && AllRings(next[..], prev[..], rings)
    }

    /** The members of list `r`, in order. */
    ghost function List(r: nat): seq<nat>
      reads this
      requires r < |rings| && |rings[r]| > 0
    {
      rings[r][1..]
    }

    constructor (heads: nat, nodes: nat)
      ensures Valid() && fresh(next) && fresh(prev)
      ensures next.Length == heads + nodes && |rings| == heads
      ensures forall r :: 0 <= r < heads ==> rings[r] == [r]
    {
      next := new nat[heads + nodes](i => i);
      prev := new nat[heads + nodes](i => i);
      rings := seq(heads, r requires 0 <= r < heads => [r]);
      new;
      assert forall r :: 0 <= r < |rings| ==> rings[r] == [r];
      forall r | 0 <= r < |rings|
        ensures IsRing(next[..], prev[..], rings[r])
      {
        assert LinkedAt(next[..], prev[..], rings[r], 0);
      }
    }

    /** A node outside all lists whose links point to itself, as after `dlist_remove`. */
    ghost predicate Loose(x: nat)
      reads this, next, prev
    {
      x < next.Length && x < prev.Length && next[x] == x && prev[x] == x && !InRing(rings, x)
    }

    /** `dlist_insert`: put `x` right after `head`, which is at position `k` of ring `r`. */
    method Insert(head: nat, x: nat, ghost r: nat, ghost k: nat)
      requires Valid()
      requires r < |rings| && k < |rings[r]| && rings[r][k] == head
      requires x < next.Length && !InRing(rings, x)
      modifies this, next, prev
      ensures Valid()
      ensures rings == old(rings)[r := Inserted(old(rings[r]), k, x)]
      ensures next[head] == x && prev[x] == head
      ensures next[x] == old(next[head]) < next.Length && prev[next[x]] == x
      ensures forall y :: 0 <= y < next.Length && y != x && !old(InRing(rings, y)) ==>
                next[y] == old(next[y]) && prev[y] == old(prev[y])
    {
      hide AllRings, InRing;
      ghost var n: seq<nat>, p: seq<nat> := next[..], prev[..];
      InsertKeepsRings(n, p, rings, r, k, x);
      prev[next[head]] := x;
      next[x] := next[head];
      next[head] := x;
      prev[x] := head;
      assert next[..] == n[x := n[head]][head := x];
      assert prev[..] == p[n[head] := x][x := head];
      rings := rings[r := Inserted(rings[r], k, x)];
    }

    /** `dlist_remove`: take `x` out of the ring in which it is (`at` says where), and link it to
        itself. On a node that was removed before, this changes nothing. */
    method Remove(x: nat, ghost at: (nat, nat), ghost loose: bool)
      requires Valid() && x < next.Length
      requires if loose then Loose(x) else at.0 < |rings| && 0 < at.1 < |rings[at.0]| && rings[at.0][at.1] == x
      modifies this, next, prev
      ensures Valid() && Loose(x)
      ensures loose ==> rings == old(rings) && next[..] == old(next[..]) && prev[..] == old(prev[..])
      ensures !loose ==> rings == old(rings)[at.0 := Removed(old(rings[at.0]), at.1)]
      ensures !loose ==>
                && old(prev[x]) < next.Length && old(next[x]) < next.Length
                && next[old(prev[x])] == old(next[x]) && prev[old(next[x])] == old(prev[x])
      ensures forall y :: 0 <= y < next.Length && y != x && !old(InRing(rings, y)) ==>
                next[y] == old(next[y]) && prev[y] == old(prev[y])
    {
      hide AllRings, InRing;
      ghost var n: seq<nat>, p: seq<nat> := next[..], prev[..];
      if !loose {
        RemoveKeepsRings(n, p, rings, at.0, at.1);
      }
      next[prev[x]] := next[x];
      prev[next[x]] := prev[x];
      next[x] := x;
      prev[x] := x;
      assert next[..] == n[p[x] := n[x]][x := x];
      assert prev[..] == p[n[x] := p[x]][x := x];
      if loose {
        assert next[..] == n && prev[..] == p;
      } else {
        rings := rings[at.0 := Removed(rings[at.0], at.1)];
      }
    }
  }

  function Inserted(ring: seq<nat>, k: nat, x: nat): seq<nat>
    requires k < |ring|
  {
    ring[..k + 1] + [x] + ring[k + 1..]
  }

  function Removed(ring: seq<nat>, k: nat): seq<nat>
    requires k < |ring|
  {
    ring[..k] + ring[k + 1..]
  }

  /** A write outside a ring's nodes does not matter to it. */
  lemma OtherRing(next: seq<nat>, prev: seq<nat>, next': seq<nat>, prev': seq<nat>, ring: seq<nat>)
    requires |next| == |prev| == |next'| == |prev'| && IsRing(next, prev, ring)
    requires forall j :: 0 <= j < |ring| ==> next'[ring[j]] == next[ring[j]] && prev'[ring[j]] == prev[ring[j]]
    ensures IsRing(next', prev', ring)
  {
    forall j | 0 <= j < |ring|
      ensures LinkedAt(next', prev', ring, j)
    {
      assert LinkedAt(next, prev, ring, j);
    }
  }

  lemma OtherMembers(rings: seq<seq<nat>>, r: nat, k: nat, s: nat)
    requires Disjoint(rings) && r < |rings| && k < |rings[r]| && s < |rings| && s != r
    ensures forall j :: 0 <= j < |rings[s]| ==> rings[s][j] != rings[r][k]
  {
  }

  lemma SelfDisjoint(rings: seq<seq<nat>>, r: nat)
    requires Disjoint(rings) && r < |rings|
    ensures forall i, j :: 0 <= i < |rings[r]| && 0 <= j < |rings[r]| && rings[r][i] == rings[r][j] ==> i == j
  {
  }

  lemma InsertKeepsRing(next: seq<nat>, prev: seq<nat>, ring: seq<nat>, k: nat, x: nat)
    requires |next| == |prev| && IsRing(next, prev, ring) && k < |ring| && x < |next| && x !in ring
    requires forall i, j :: 0 <= i < |ring| && 0 <= j < |ring| && ring[i] == ring[j] ==> i == j
    ensures next[ring[k]] < |next|
    ensures IsRing(next[x := next[ring[k]]][ring[k] := x], prev[next[ring[k]] := x][x := ring[k]], Inserted(ring, k, x))
  {
    assert LinkedAt(next, prev, ring, k);
    var head, after := ring[k], next[ring[k]];
    var next', prev', ring' := next[x := after][head := x], prev[after := x][x := head], Inserted(ring, k, x);
    forall j | 0 <= j < |ring'|
      ensures LinkedAt(next', prev', ring', j)
    {
      if j < k {
        assert LinkedAt(next, prev, ring, j);
      } else if j > k + 1 {
        assert LinkedAt(next, prev, ring, j - 1);
      }
    }
  }

  lemma InsertKeepsRings(next: seq<nat>, prev: seq<nat>, rings: seq<seq<nat>>, r: nat, k: nat, x: nat)
    requires |next| == |prev| && AllRings(next, prev, rings)
    requires r < |rings| && k < |rings[r]| && x < |next| && !InRing(rings, x)
    ensures next[rings[r][k]] < |next|
    ensures AllRings(next[x := next[rings[r][k]]][rings[r][k] := x], prev[next[rings[r][k]] := x][x := rings[r][k]],
                     rings[r := Inserted(rings[r], k, x)])
    ensures InRing(rings, next[rings[r][k]]) && InRing(rings, rings[r][k]) && rings[r][k] < |next|
  {
    var ring := rings[r];
    assert LinkedAt(next, prev, ring, k);
    hide Disjoint;
    SelfDisjoint(rings, r);
    InsertKeepsRing(next, prev, ring, k, x);
    var after := Succ(k, |ring|);
    var next', prev' := next[x := next[ring[k]]][ring[k] := x], prev[next[ring[k]] := x][x := ring[k]];
    var rings' := rings[r := Inserted(ring, k, x)];
    forall s | 0 <= s < |rings|
      ensures IsRing(next', prev', rings'[s])
    {
      if s != r {
        OtherMembers(rings, r, k, s);
        OtherMembers(rings, r, after, s);
        OtherRing(next, prev, next', prev', rings[s]);
      }
    }
    InsertedDisjoint(rings, r, k, x);
  }

  lemma InsertedDisjoint(rings: seq<seq<nat>>, r: nat, k: nat, x: nat)
    requires Disjoint(rings) && r < |rings| && k < |rings[r]| && !InRing(rings, x)
    ensures Disjoint(rings[r := Inserted(rings[r], k, x)])
  {
    var rings' := rings[r := Inserted(rings[r], k, x)];
    forall s, i, t, j |
        0 <= s < |rings| && 0 <= t < |rings| && 0 <= i < |rings'[s]| && 0 <= j < |rings'[t]| &&
            rings'[s][i] == rings'[t][j]
      ensures s == t && i == j
    {
      var i0, j0 := Before(i, k), Before(j, k);
      assert (s == r && i == k + 1) || rings'[s][i] == rings[s][if s == r then i0 else i];
      assert (t == r && j == k + 1) || rings'[t][j] == rings[t][if t == r then j0 else j];
    }
  }

  /** The position in the old ring of position `i` of the ring with an insertion after `k`. */
  function Before(i: nat, k: nat): nat { if i > k + 1 then i - 1 else i }

  lemma RemoveKeepsRing(next: seq<nat>, prev: seq<nat>, ring: seq<nat>, k: nat)
    requires |next| == |prev| && IsRing(next, prev, ring) && 0 < k < |ring|
    requires forall i, j :: 0 <= i < |ring| && 0 <= j < |ring| && ring[i] == ring[j] ==> i == j
    ensures next[ring[k]] < |next| && prev[ring[k]] < |prev|
    ensures IsRing(next[prev[ring[k]] := next[ring[k]]][ring[k] := ring[k]],
                   prev[next[ring[k]] := prev[ring[k]]][ring[k] := ring[k]], Removed(ring, k))
  {
    assert LinkedAt(next, prev, ring, k) && LinkedAt(next, prev, ring, k - 1);
    var x := ring[k];
    var next', prev', ring' := next[prev[x] := next[x]][x := x], prev[next[x] := prev[x]][x := x], Removed(ring, k);
    forall j | 0 <= j < |ring'|
      ensures LinkedAt(next', prev', ring', j)
    {
      assert LinkedAt(next, prev, ring, if j < k then j else j + 1);
    }
  }

  lemma RemoveKeepsRings(next: seq<nat>, prev: seq<nat>, rings: seq<seq<nat>>, r: nat, k: nat)
    requires |next| == |prev| && AllRings(next, prev, rings)
    requires r < |rings| && 0 < k < |rings[r]|
    ensures var x := rings[r][k];
            && next[x] < |next| && prev[x] < |prev| && next[x] != x && prev[x] != x
            && InRing(rings, next[x]) && InRing(rings, prev[x])
            && AllRings(next[prev[x] := next[x]][x := x], prev[next[x] := prev[x]][x := x],
                rings[r := Removed(rings[r], k)])
            && !InRing(rings[r := Removed(rings[r], k)], x)
  {
    var ring := rings[r];
    var x := ring[k];
    assert LinkedAt(next, prev, ring, k) && LinkedAt(next, prev, ring, k - 1);
    hide Disjoint;
    SelfDisjoint(rings, r);
    RemoveKeepsRing(next, prev, ring, k);
    var next', prev' := next[prev[x] := next[x]][x := x], prev[next[x] := prev[x]][x := x];
    var rings' := rings[r := Removed(ring, k)];
    var after := Succ(k, |ring|);
    forall s | 0 <= s < |rings|
      ensures IsRing(next', prev', rings'[s])
    {
      if s != r {
        OtherMembers(rings, r, k, s);
        OtherMembers(rings, r, after, s);
        OtherMembers(rings, r, k - 1, s);
        OtherRing(next, prev, next', prev', rings[s]);
      }
    }
    RemovedDisjoint(rings, r, k);
  }

  lemma RemovedDisjoint(rings: seq<seq<nat>>, r: nat, k: nat)
    requires Disjoint(rings) && r < |rings| && 0 < k < |rings[r]|
    ensures Disjoint(rings[r := Removed(rings[r], k)])
    ensures !InRing(rings[r := Removed(rings[r], k)], rings[r][k])
  {
    var rings' := rings[r := Removed(rings[r], k)];
    forall s, i, t, j |
        0 <= s < |rings| && 0 <= t < |rings| && 0 <= i < |rings'[s]| && 0 <= j < |rings'[t]| &&
            rings'[s][i] == rings'[t][j]
      ensures s == t && i == j
    {
      var i0, j0 := if s == r && i >= k then i + 1 else i, if t == r && j >= k then j + 1 else j;
      assert rings'[s][i] == rings[s][i0] && rings'[t][j] == rings[t][j0];
    }
    forall s | 0 <= s < |rings|
      ensures rings[r][k] !in rings'[s]
    {
      forall i | 0 <= i < |rings'[s]|
        ensures rings'[s][i] != rings[r][k]
      {
        var i0 := if s == r && i >= k then i + 1 else i;
        assert rings'[s][i] == rings[s][i0];
      }
    }
  }
}
