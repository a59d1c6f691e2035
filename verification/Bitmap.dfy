/** The page bitmap of src/buddy.c: one bit per page, eight to a byte. */
module Bitmaps {

  const BYTE_WIDTH := 8

  function Bit(k: nat): bv8
    requires k < BYTE_WIDTH
  {
    (1 as bv8) << k
  }

  predicate BitAt(bits: seq<bv8>, i: nat)
    requires i < BYTE_WIDTH * |bits|
  {
    bits[i / BYTE_WIDTH] & Bit(i % BYTE_WIDTH) != 0
  }

  /** Clear one bit of a byte, then or in the new value. */
  function WithBit(b: bv8, k: nat, value: bool): bv8
    requires k < BYTE_WIDTH
  {
    (b & !Bit(k)) | (if value then Bit(k) else 0)
  }

  lemma BitValues(k: nat)
    requires k < BYTE_WIDTH
    ensures Bit(k) == if k == 0 then 1 else if k == 1 then 2 else if k == 2 then 4 else if k == 3 then 8
                      else if k == 4 then 16 else if k == 5 then 32 else if k == 6 then 64 else 128
  {
    if k == 0 {
    } else if k == 1 {
    } else if k == 2 {
    } else if k == 3 {
    } else if k == 4 {
    } else if k == 5 {
    } else if k == 6 {
    } else {
      assert k == 7;
    }
  }

  lemma WithBitAt(b: bv8, k: nat, value: bool, j: nat)
    requires k < BYTE_WIDTH && j < BYTE_WIDTH
    ensures WithBit(b, k, value) & Bit(j) != 0 <==> if j == k then value else b & Bit(j) != 0
  {
    BitValues(k);
    BitValues(j);
  }

  /** `bits'` is `bits` with the bits `first` to `end - 1` set to `value`. */
  ghost predicate BitsSet(bits: seq<bv8>, bits': seq<bv8>, first: nat, end: nat, value: bool)
  {
    && |bits'| == |bits|
    && forall j: nat {:trigger BitAt(bits', j)} :: j < BYTE_WIDTH * |bits| ==>
         (BitAt(bits', j) <==> if first <= j < end then value else BitAt(bits, j))
  }

  /** `set_bitmap`. */
  method SetBits(bits: array<bv8>, first: nat, end: nat, value: bool)
    requires first <= end <= BYTE_WIDTH * bits.Length
    modifies bits
    ensures BitsSet(old(bits[..]), bits[..], first, end, value)
  {
    hide BitAt, Bit, BitsSet;
    ghost var was := bits[..];
    NoBitsSet(was, first, value);
    var i := first;
    while i < end
      invariant first <= i <= end
      invariant BitsSet(was, bits[..], first, i, value)
    {
      ghost var now := bits[..];
      bits[i / BYTE_WIDTH] := bits[i / BYTE_WIDTH] & !Bit(i % BYTE_WIDTH);
      bits[i / BYTE_WIDTH] := bits[i / BYTE_WIDTH] | (if value then Bit(i % BYTE_WIDTH) else 0);
      assert bits[..] == now[i / BYTE_WIDTH := WithBit(now[i / BYTE_WIDTH], i % BYTE_WIDTH, value)];
      OneMoreBit(was, now, first, i, value);
      i := i + 1;
    }
  }

  lemma NoBitsSet(bits: seq<bv8>, first: nat, value: bool)
    ensures BitsSet(bits, bits, first, first, value)
  {
  }

  lemma OneMoreBit(bits0: seq<bv8>, bits: seq<bv8>, first: nat, i: nat, value: bool)
    requires first <= i < BYTE_WIDTH * |bits| && BitsSet(bits0, bits, first, i, value)
    ensures BitsSet(bits0, bits[i / BYTE_WIDTH := WithBit(bits[i / BYTE_WIDTH], i % BYTE_WIDTH, value)],
                    first, i + 1, value)
  {
    hide BitAt;
    OneBit(bits, i, value);
  }

  lemma OneBit(bits: seq<bv8>, i: nat, value: bool)
    requires i < BYTE_WIDTH * |bits|
    ensures var bits' := bits[i / BYTE_WIDTH := WithBit(bits[i / BYTE_WIDTH], i % BYTE_WIDTH, value)];
            forall j: nat :: j < BYTE_WIDTH * |bits| ==> (BitAt(bits', j) <==> if j == i then value else BitAt(bits, j))
  {
    var bits' := bits[i / BYTE_WIDTH := WithBit(bits[i / BYTE_WIDTH], i % BYTE_WIDTH, value)];
    forall j: nat | j < BYTE_WIDTH * |bits|
      ensures BitAt(bits', j) <==> if j == i then value else BitAt(bits, j)
    {
      WithBitAt(bits[i / BYTE_WIDTH], i % BYTE_WIDTH, value, j % BYTE_WIDTH);
      assert j == BYTE_WIDTH * (j / BYTE_WIDTH) + j % BYTE_WIDTH;
    }
  }
}
