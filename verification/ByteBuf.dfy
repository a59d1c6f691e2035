/** Byte buffers with append semantics (include/tx/byte.h) and the ring buffer of src/net/tcp.c. */
module Buffers {
  import opened Common

  class ByteBuf {
    const dat: array<Byte>
    var len: nat

    ghost predicate Valid()
      reads this
    {
      len <= dat.Length
    }

    ghost function Contents(): seq<Byte>
      reads this, dat
      requires Valid()
    {
      dat[..len]
    }

    constructor (cap: nat)
      ensures Valid() && fresh(dat) && dat.Length == cap && Contents() == []
    {
      dat := new Byte[cap](_ => 0);
      len := 0;
    }

    /** `byte_buf_append`: as much of `view` as fits. */
    method Append(view: seq<Byte>) returns (n: nat)
      requires Valid()
      modifies this, dat
      ensures Valid() && n == Min(dat.Length - old(len), |view|)
      ensures Contents() == old(Contents()) + view[..n]
      ensures dat[len..] == old(dat[..])[len..]
    {
      n := Min(dat.Length - len, |view|);
      ghost var was := dat[..];
      for i := 0 to n
        modifies dat
        invariant dat[..] == was[..len] + view[..i] + was[len + i..]
      {
        dat[len + i] := view[i];
      }
      len := len + n;
    }
  }

  // ----- The ring ------------------------------------------------------------------------------

  /** The place `i` steps after `tail` in a ring of `cap` places. */
  function Slot(tail: nat, i: nat, cap: nat): (k: nat)
    requires tail < cap && i <= cap
    ensures k < cap
  {
    if tail + i < cap then tail + i else tail + i - cap
  }

  /** The number of steps from `tail` to `head`. */
  function Steps(head: nat, tail: nat, cap: nat): nat
    requires head < cap && tail < cap
  {
    if tail <= head then head - tail else head + cap - tail
  }

  ghost function Ring(d: seq<Byte>, tail: nat, n: nat): (s: seq<Byte>)
    requires tail < |d| && n <= |d|
    ensures |s| == n
  {
    seq(n, i requires 0 <= i < n => d[Slot(tail, i, |d|)])
  }

  lemma ModTwice(x: nat, c: nat)
    requires 0 < c && x < 2 * c
    ensures x % c == if x < c then x else x - c
  {
    if x >= c {
      assert x % c == (x - c) % c;
    }
  }

  lemma RingPush(d: seq<Byte>, tail: nat, n: nat, b: Byte)
    requires tail < |d| && n < |d|
    ensures Ring(d[Slot(tail, n, |d|) := b], tail, n + 1) == Ring(d, tail, n) + [b]
  {
  }

  lemma RingPop(d: seq<Byte>, tail: nat, n: nat)
    requires tail < |d| && 0 < n <= |d|
    ensures Ring(d, tail, n) == [d[tail]] + Ring(d, Slot(tail, 1, |d|), n - 1)
  {
  }

  class CircBuf {
    const data: array<Byte>
    var head: nat
    var tail: nat

    ghost predicate Valid()
      reads this
    {
      head < data.Length && tail < data.Length
    }

    /** The bytes in the ring, oldest first. */
    ghost function Contents(): (s: seq<Byte>)
      reads this, data
      requires Valid()
      ensures |s| < data.Length
    {
      Ring(data[..], tail, Steps(head, tail, data.Length))
    }

    /** `circ_buf_alloc`: one byte of the capacity stays unused. */
    constructor (capacity: nat)
      requires capacity > 0
      ensures Valid() && fresh(data) && data.Length == capacity && Contents() == []
    {
      data := new Byte[capacity](_ => 0);
      head, tail := 0, 0;
    }

    method IsEmpty() returns (r: bool)
      requires Valid()
      ensures r <==> Contents() == []
    {
      r := head == tail;
    }

    method IsFull() returns (r: bool)
      requires Valid()
      ensures r <==> |Contents()| == data.Length - 1
    {
      ModTwice(head + 1, data.Length);
      r := (head + 1) % data.Length == tail;
    }

    method Count() returns (n: nat)
      requires Valid()
      ensures n == |Contents()|
    {
      ModTwice(head - tail + data.Length, data.Length);
      n := (head - tail + data.Length) % data.Length;
    }

    method Space() returns (n: nat)
      requires Valid()
      ensures n == data.Length - 1 - |Contents()|
    {
      var used := Count();
      n := data.Length - 1 - used;
    }

    method PushByte(b: Byte) returns (r: Result<()>)
      requires Valid()
      modifies this, data
      ensures Valid()
      ensures r == if |old(Contents())| == data.Length - 1 then Err(EAGAIN) else Ok(())
      ensures Contents() == if r.Ok? then old(Contents()) + [b] else old(Contents())
    {
      var full := IsFull();
      if full {
        return Err(EAGAIN);
      }
      RingPush(data[..], tail, Steps(head, tail, data.Length), b);
      ModTwice(head + 1, data.Length);
      data[head] := b;
      head := (head + 1) % data.Length;
      return Ok(());
    }

    method PopByte() returns (r: Result<Byte>)
      requires Valid()
      modifies this
      ensures Valid()
      ensures r == if old(Contents()) == [] then Err(EAGAIN) else Ok(old(Contents())[0])
      ensures Contents() == if r.Ok? then old(Contents())[1..] else old(Contents())
    {
      var empty := IsEmpty();
      if empty {
        return Err(EAGAIN);
      }
      RingPop(data[..], tail, Steps(head, tail, data.Length));
      ModTwice(tail + 1, data.Length);
      var b := data[tail];
      tail := (tail + 1) % data.Length;
      return Ok(b);
    }

    /** `circ_buf_write` stores all of `view` or nothing. */
    method Write(view: seq<Byte>) returns (r: Result<()>)
      requires Valid()
      modifies this, data
      ensures Valid()
      ensures r == if |old(Contents())| + |view| >= data.Length then Err(EAGAIN) else Ok(())
      ensures Contents() == if r.Ok? then old(Contents()) + view else old(Contents())
    {
      hide Ring;
      var space := Space();
      if |view| > space {
        return Err(EAGAIN);
      }
      for i := 0 to |view|
        invariant Valid() && Contents() == old(Contents()) + view[..i]
      {
        var res := PushByte(view[i]);
        if !res.Ok? {
          return res;
        }
      }
      return Ok(());
    }

    /** `circ_buf_read` moves the oldest bytes to `dest`, as many as fit. */
    method Read(dest: ByteBuf) returns (n: nat)
      requires Valid() && dest.Valid() && dest.dat != data
      modifies this, dest, dest.dat
      ensures Valid() && dest.Valid()
      ensures n == Min(|old(Contents())|, dest.dat.Length - old(dest.len))
      ensures dest.Contents() == old(dest.Contents()) + old(Contents())[..n]
      ensures Contents() == old(Contents())[n..]
    {
      hide Ring;
      n := 0;
      var available := Count();
      var space := dest.dat.Length - dest.len;
      var toRead := Min(available, space);
      for i := 0 to toRead
        invariant n == i && Valid() && dest.Valid()
        invariant Contents() == old(Contents())[n..]
        invariant dest.Contents() == old(dest.Contents()) + old(Contents())[..n]
      {
        var res := PopByte();
        if !res.Ok? {
          break;
        }
        var put := dest.Append([res.value]);
        if put != 1 {
          break;
        }
        n := n + 1;
      }
    }
  }
}
