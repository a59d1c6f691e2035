/** The data of a file in src/ramfs.c: a byte buffer that a write may replace by a larger one. */
module RamFiles {
  import opened Arith
  import opened Common
  import opened Buffers

  const DEFAULT_FILE_SIZE := 4096

  /** `data` with the bytes from `offset` on overwritten by `view`. */
  function Spliced(data: seq<Byte>, view: seq<Byte>, offset: nat): seq<Byte>
    requires offset <= |data|
  {
    data[..offset] + view + data[Min(offset + |view|, |data|)..]
  }

  /** What was written can be read back, and nothing else has changed. */
  lemma WrittenAndKept(data: seq<Byte>, view: seq<Byte>, offset: nat)
    requires offset <= |data|
    ensures var d := Spliced(data, view, offset);
            && |d| == Max(|data|, offset + |view|)
            && d[offset..offset + |view|] == view
            && forall i :: 0 <= i < |data| && !(offset <= i < offset + |view|) ==> d[i] == data[i]
  {
  }

  class File {
    var dat: array<Byte>
    var len: nat

    ghost predicate Valid()
      reads this
    {
      len <= dat.Length && dat.Length > 0
    }

    ghost function Contents(): seq<Byte>
      reads this, dat
      requires Valid()
    {
      dat[..len]
    }

    constructor ()
      ensures Valid() && fresh(dat) && Contents() == [] && dat.Length == DEFAULT_FILE_SIZE
    {
      dat := new Byte[DEFAULT_FILE_SIZE](_ => 0);
      len := 0;
    }

    /** `ram_fs_read` on a file: from `offset` to the end, as much as fits in `dest`. Before the start of
        the data there is other memory. */
    method Read(dest: ByteBuf, offset: int) returns (r: Result<nat>)
      requires Valid() && dest.Valid() && dest.dat != dat
      modifies dest, dest.dat
      ensures dest.Valid()
      ensures 0 <= offset <= len ==>
                && r == Ok(Min(len - offset, dest.dat.Length - old(dest.len)))
                && dest.Contents() == old(dest.Contents()) + Contents()[offset..offset + r.value]
      ensures !(0 <= offset <= len) ==> dest.Contents() == old(dest.Contents())
      ensures offset > len ==> r == Err(EINVAL)
      ensures offset < 0 ==> r == if dest.dat.Length == old(dest.len) then Ok(0) else Crashed
    {
      if offset > len {
        return Err(EINVAL);
      }
      if offset == len {
        return Ok(0);
      }
      if offset < 0 {
        return if dest.len == dest.dat.Length then Ok(0) else Crashed;
      }
      var n := dest.Append(dat[offset..len]);
      assert dat[offset..len][..n] == Contents()[offset..offset + n];
      return Ok(n);
    }

    /** The capacity after a write that needs `need` bytes: doubled until it suffices. */
    function Capacity(cap: nat, need: int): (c: nat)
      requires cap > 0
      ensures c >= need && c >= cap
      decreases need - cap
    {
      if need <= cap then cap else Capacity(2 * cap, need)
    }

    /** The part of `ram_fs_write` that moves the data to a larger buffer. */
    method Reserve(need: int)
      requires Valid()
      modifies this`dat
      ensures Valid() && (dat == old(dat) || fresh(dat))
      ensures dat.Length == Capacity(old(dat.Length), need)
      ensures Contents() == old(Contents())
    {
      if need > dat.Length {
        var cap := 2 * dat.Length;
        while cap < need
          modifies {}
          invariant 0 < cap && Capacity(cap, need) == Capacity(dat.Length, need)
        {
          cap := cap * 2;
        }
        var larger := new Byte[cap](_ => 0);
        for i := 0 to len
          modifies larger
          invariant larger[..i] == dat[..i]
        {
          larger[i] := dat[i];
        }
        dat := larger;
      }
    }

    /** The copying loop of `ram_fs_write`. */
    method Overwrite(view: seq<Byte>, offset: nat)
      requires offset + |view| <= dat.Length
      modifies dat
      ensures dat[..] == old(dat[..offset]) + view + old(dat[offset + |view|..])
    {
      for i := 0 to |view|
        invariant dat[offset..offset + i] == view[..i]
        invariant dat[..offset] == old(dat[..offset]) && dat[offset + i..] == old(dat[offset + i..])
      {
        dat[offset + i] := view[i];
      }
      assert dat[..] == dat[..offset] + dat[offset..offset + |view|] + dat[offset + |view|..];
    }

    /** `ram_fs_write` on a file. `memory` tells whether a larger buffer can be allocated. */
    method Write(view: seq<Byte>, offset: int, memory: bool) returns (r: Result<nat>)
      requires Valid()
      modifies this, dat
      ensures Valid() && (dat == old(dat) || fresh(dat))
      ensures r == WriteResult(old(len), old(dat.Length), |view|, offset, memory)
      ensures 0 <= offset <= old(len) && (|view| + offset <= old(dat.Length) || memory) ==> r == Ok(|view|)
      ensures offset <= old(len) && |view| + offset > old(dat.Length) && !memory ==> r == Err(ENOMEM)
      ensures offset > old(len) ==> r == Err(EINVAL)
      ensures r.Ok? ==> dat.Length == Capacity(old(dat.Length), |view| + offset)
      ensures Contents() == if r.Ok? && view != [] then Spliced(old(Contents()), view, offset) else old(Contents())
    {
      if offset > len {
        return Err(EINVAL);
      }
      if |view| + offset > dat.Length && !memory {
        return Err(ENOMEM);
      }
      if offset < 0 && view != [] {
        return Crashed;
      }
      Reserve(|view| + offset);
      if view != [] {
        SplicedPrefix(dat[..], len, view, offset);
        Overwrite(view, offset);
        len := Max(len, offset + |view|);
      }
      return Ok(|view|);
    }
  }

  /** What a write of `n` bytes reports, for a buffer of `cap` bytes. A negative offset leads to memory
      before the buffer, unless there is nothing to write. */
  function WriteResult(len: nat, cap: nat, n: nat, offset: int, memory: bool): Result<nat>
  {
    if offset > len then Err(EINVAL)
    else if n + offset > cap && !memory then Err(ENOMEM)
    else if offset < 0 && n > 0 then Crashed
    else Ok(n)
  }

  /** The capacity is doubled until it suffices, and no further. */
  lemma {:induction false} CapacityIsLeast(file: File, cap: nat, need: int)
    requires cap > 0
    ensures need <= cap ==> file.Capacity(cap, need) == cap
    ensures need > cap ==> need <= file.Capacity(cap, need) < 2 * need
    decreases need - cap
  {
    if need > cap {
      CapacityIsLeast(file, 2 * cap, need);
    }
  }

  lemma {:induction false} CapacityDoubles(file: File, cap: nat, need: int) returns (k: nat)
    requires cap > 0
    ensures file.Capacity(cap, need) == cap * Pow2(k)
    decreases need - cap
  {
    if need <= cap {
      k := 0;
    } else {
      k := CapacityDoubles(file, 2 * cap, need);
      TwiceAsMuch(cap, Pow2(k));
      k := k + 1;
    }
  }

  lemma TwiceAsMuch(a: nat, b: nat)
    ensures 2 * a * b == a * (2 * b)
  {
  }

  lemma SplicedPrefix(was: seq<Byte>, len: nat, view: seq<Byte>, offset: nat)
    requires offset <= len <= |was| && offset + |view| <= |was|
    ensures (was[..offset] + view + was[offset + |view|..])[..Max(len, offset + |view|)] ==
              Spliced(was[..len], view, offset)
  {
  }
}
