/** The block pool of include/tx/pool.h. Blocks are named by their position in the pool's memory. */
module Pools {

  /** The content of a block. While a block is free, its first word is the link to the next free
      block; otherwise it belongs to whoever allocated it. */
  datatype Block<T> = Link(next: int) | Used(value: T)

  const NULL := -1

  class Pool<T(!new)> {
    const blocks: array<Block<T>>
    var head: int
    ghost var list: seq<nat> // The free blocks in the order in which they will be handed out.

    ghost predicate Valid()
      reads this, blocks
    {
      FreeList(blocks[..], head, list)
    }

    constructor (n: nat, zero: T)
      ensures Valid() && fresh(blocks)
      ensures blocks.Length == n
      ensures |list| == n
      ensures forall b: nat :: b < n ==> b in list
    {
      blocks := new Block<T>[n](_ => Used(zero));
      head := NULL;
      list := [];
      new;
      var i := 0;
      while i < n
        modifies this, blocks
        invariant 0 <= i <= n == blocks.Length
        invariant |list| == i && forall j :: 0 <= j < i ==> list[j] == i - 1 - j
        invariant Valid()
        invariant fresh(blocks)
      {
        Push(i);
        i := i + 1;
      }
      forall b: nat | b < n
        ensures b in list
      {
        assert list[n - 1 - b] == b;
      }
    }

    /** Link `b` in front of the free list. */
    method Push(b: nat)
      requires Valid()
      requires b < blocks.Length && b !in list
      modifies this, blocks
      ensures Valid()
      ensures list == [b] + old(list)
      ensures blocks[..] == old(blocks[..])[b := Link(old(head))]
    {
      ghost var was := blocks[..];
      blocks[b] := Link(head);
      head := b;
      list := [b] + list;
      assert blocks[..] == was[b := Link(old(head))];
      forall i | 0 <= i < |list|
        ensures Linked(blocks[..], list, i)
      {
        if i > 0 {
          assert Linked(was, old(list), i - 1);
        }
      }
    }

    /** `pool_alloc`: unlink the first free block and zero it; NULL if there is none. */
    method Alloc(zero: T) returns (b: int)
      requires Valid()
      modifies this, blocks
      ensures Valid()
      ensures old(list) == [] ==> b == NULL && list == [] && blocks[..] == old(blocks[..])
      ensures old(list) != [] ==>
                && b == old(list)[0]
                && list == old(list)[1..]
                && b !in list && (forall x :: x in old(list) <==> x == b || x in list)
                && 0 <= b < blocks.Length
                && blocks[..] == old(blocks[..])[b := Used(zero)]
    {
      if head == NULL {
        return NULL;
      }
      b := head;
      ghost var was := blocks[..];
      assert Linked(was, list, 0);
      head := blocks[b].next;
      HeadAndTail(list);
      blocks[b] := Used(zero);
      list := list[1..];
      assert blocks[..] == was[b := Used(zero)];
      forall i | 0 <= i < |list|
        ensures Linked(blocks[..], list, i)
      {
        assert Linked(was, old(list), i + 1);
      }
    }

    /** `pool_free`. */
    method Free(b: nat)
      requires Valid()
      requires b < blocks.Length && b !in list
      modifies this, blocks
      ensures Valid()
      ensures list == [b] + old(list)
      ensures blocks[..] == old(blocks[..])[b := Link(old(head))]
    {
      Push(b);
    }
  }

  /** The links stored in the free blocks thread exactly the blocks of `list`, once each. */
  ghost predicate FreeList<T(!new)>(blocks: seq<Block<T>>, head: int, list: seq<nat>)
  {
    && (forall i, j :: 0 <= i < j < |list| ==> list[i] != list[j])
    && (forall i :: 0 <= i < |list| ==> list[i] < |blocks|)
    && (forall i {:trigger Linked(blocks, list, i)} :: 0 <= i < |list| ==> Linked(blocks, list, i))
    && (forall b :: 0 <= b < |blocks| && blocks[b].Link? ==> b in list)
    && head == LinkAfter(list, 0)
  }

  /** The block at position `i` of the free list links to the next one. */
  ghost predicate Linked<T(!new)>(blocks: seq<Block<T>>, list: seq<nat>, i: nat)
    requires i < |list| && list[i] < |blocks|
  {
    blocks[list[i]] == Link(LinkAfter(list, i + 1))
  }

  lemma HeadAndTail(list: seq<nat>)
    requires list != []
    ensures forall x :: x in list <==> x == list[0] || x in list[1..]
  {
    assert list == [list[0]] + list[1..];
  }

  function LinkAfter(list: seq<nat>, i: nat): int
  {
    if i < |list| then list[i] else NULL
  }
}
