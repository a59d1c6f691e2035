/** The size arithmetic of src/buddy.c: bit smearing, orders, and the sizes that alloc, free and
    kvalloc round to. Numbers are non-negative `sz` values; `Or` and `And` are the bitwise operators. */
module BuddySizes {
  import opened Arith
  import opened Common

  const PAGE_SIZE := 0x1000
  const SZ_WIDTH := 64
  const SZ_MAX := 0x7FFF_FFFF_FFFF_FFFF

  function Or(a: nat, b: nat): nat
    decreases a + b
  {
    if a == 0 then b else if b == 0 then a
    else 2 * Or(a / 2, b / 2) + if a % 2 == 1 || b % 2 == 1 then 1 else 0
  }

  function And(a: nat, b: nat): nat
    decreases a + b
  {
    if a == 0 || b == 0 then 0
    else 2 * And(a / 2, b / 2) + if a % 2 == 1 && b % 2 == 1 then 1 else 0
  }

  /** Bit `i` of `n`. */
  predicate Bit(n: nat, i: nat)
  {
    if i == 0 then n % 2 == 1 else Bit(n / 2, i - 1)
  }

  /** `n >> c`. */
  function Shr(n: nat, c: nat): nat
  {
    if c == 0 then n else Shr(n / 2, c - 1)
  }

  lemma {:induction false} OrBit(a: nat, b: nat, i: nat)
    ensures Bit(Or(a, b), i) <==> Bit(a, i) || Bit(b, i)
  {
    if a == 0 || b == 0 {
      ZeroBit(i);
    } else if i > 0 {
      OrBit(a / 2, b / 2, i - 1);
      assert Or(a, b) / 2 == Or(a / 2, b / 2);
    }
  }

  lemma {:induction false} ZeroBit(i: nat)
    ensures !Bit(0, i)
  {
    if i > 0 {
      ZeroBit(i - 1);
    }
  }

  lemma {:induction false} ShrBit(n: nat, c: nat, i: nat)
    ensures Bit(Shr(n, c), i) <==> Bit(n, i + c)
  {
    if c > 0 {
      ShrBit(n / 2, c - 1, i);
    }
  }

  lemma {:induction false} ShrIsDiv(n: nat, c: nat)
    ensures Shr(n, c) == n / Pow2(c)
  {
    if c > 0 {
      ShrIsDiv(n / 2, c - 1);
      DivDiv(n, 2, Pow2(c - 1));
    }
  }

  /** The position of the highest bit. */
  function Log(n: nat): nat
    requires n > 0
  {
    if n == 1 then 0 else 1 + Log(n / 2)
  }

  lemma {:induction false} LogBounds(n: nat)
    requires n > 0
    ensures Pow2(Log(n)) <= n < Pow2(Log(n) + 1)
    ensures Bit(n, Log(n)) && forall i :: i > Log(n) ==> !Bit(n, i)
  {
    if n == 1 {
      forall i: nat | i > 0
        ensures !Bit(1, i)
      {
        ZeroBit(i - 1);
      }
    } else {
      LogBounds(n / 2);
      forall i: nat | i > Log(n)
        ensures !Bit(n, i)
      {
        assert !Bit(n / 2, i - 1);
      }
    }
  }

  /** A number whose bits up to `m` are all set and all others clear. */
  lemma {:induction false} AllOnes(n: nat, m: nat)
    requires forall i: nat :: Bit(n, i) <==> i <= m
    ensures n + 1 == Pow2(m + 1)
  {
    assert Bit(n, 0);
    forall i: nat
      ensures Bit(n / 2, i) <==> i + 1 <= m
    {
      assert Bit(n, i + 1) <==> i + 1 <= m;
    }
    if m == 0 {
      NoBits(n / 2);
    } else {
      AllOnes(n / 2, m - 1);
    }
  }

  lemma NoBits(n: nat)
    requires forall i: nat :: !Bit(n, i)
    ensures n == 0
  {
    if n > 0 {
      LogBounds(n);
      assert false;
    }
  }

  ghost predicate IsPowerOfTwo(n: nat) { exists k: nat :: n == Pow2(k) }

  /** The test `(n & (n - 1)) == 0` recognises exactly the powers of two. */
  lemma {:induction false} PowerTest(n: nat)
    requires n > 0
    ensures And(n, n - 1) == 0 <==> IsPowerOfTwo(n)
  {
    if n == 1 {
      assert Pow2(0) == 1;
    } else if n % 2 == 1 {
      AndSelf(n / 2);
      assert And(n, n - 1) == 2 * And(n / 2, n / 2);
      assert forall k: nat :: Pow2(k) % 2 == if k == 0 then 1 else 0;
    } else {
      PowerTest(n / 2);
      assert And(n, n - 1) == 2 * And(n / 2, n / 2 - 1);
      if IsPowerOfTwo(n / 2) {
        var k: nat :| n / 2 == Pow2(k);
        assert n == Pow2(k + 1);
      }
      if IsPowerOfTwo(n) {
        var k: nat :| n == Pow2(k);
        assert n / 2 == Pow2(k - 1);
      }
    }
  }

  lemma {:induction false} AndSelf(n: nat)
    ensures And(n, n) == n
  {
    if n > 0 {
      AndSelf(n / 2);
    }
  }

  /** `r` is the least power of two at or above `n`. */
  ghost predicate LeastPowerGeq(n: nat, r: nat)
  {
    IsPowerOfTwo(r) && n <= r && forall k: nat :: n <= Pow2(k) ==> r <= Pow2(k)
  }

  /** `min_power_of_two_geq`: each round doubles the run of ones below the highest bit. Above 2^62
      the next power of two does not fit an `sz`. */
  method MinPowerOfTwoGeq(n0: nat) returns (r: Result<nat>)
    requires n0 <= SZ_MAX
    ensures r.Ok? <==> n0 <= Pow2(SZ_WIDTH - 2)
    ensures if r.Ok? then LeastPowerGeq(n0, r.value) else r == Crashed
  {
    if n0 == 0 {
      assert Pow2(0) == 1;
      return Ok(1);
    }
    PowerTest(n0);
    if And(n0, n0 - 1) == 0 {
      PowerFits(n0);
      return Ok(n0);
    }
    var n := n0;
    ghost var m := Log(n0);
    LogBounds(n0);
    LogSmall(n0);
    var shift := 1;
    while shift < SZ_WIDTH
      invariant shift in {1, 2, 4, 8, 16, 32, 64}
      invariant forall i: nat :: i > m ==> !Bit(n, i)
      invariant forall i: nat :: i <= m < i + shift ==> Bit(n, i)
    {
      SmearRound(n, m, shift);
      n := Or(n, Shr(n, shift));
      shift := 2 * shift;
    }
    AllOnes(n, m);
    NextPower(n0, m);
    NextFits(n0, m);
    if n == SZ_MAX {
      return Crashed;
    }
    return Ok(n + 1);
  }

  /** Of the powers of two that an `sz` can hold, 2^62 is the largest. */
  lemma PowerFits(n: nat)
    requires IsPowerOfTwo(n) && n <= SZ_MAX
    ensures n <= Pow2(SZ_WIDTH - 2)
  {
    KnownPowers();
    var k: nat :| n == Pow2(k);
    Pow2Order(SZ_WIDTH - 1, k);
    Pow2Order(k, SZ_WIDTH - 2);
  }

  lemma NextFits(n: nat, m: nat)
    requires n > 0 && m == Log(n) && !IsPowerOfTwo(n)
    requires n <= SZ_MAX
    ensures n <= Pow2(SZ_WIDTH - 2) <==> Pow2(m + 1) <= SZ_MAX
    ensures Pow2(m + 1) <= SZ_MAX + 1
  {
    LogSmall(n);
    Pow2Order(m + 1, SZ_WIDTH - 1);
    KnownPowers();
    LogBounds(n);
    assert n != Pow2(m);
    Pow2Order(m + 1, SZ_WIDTH - 2);
    Pow2Order(SZ_WIDTH - 1, m + 1);
    Pow2Order(SZ_WIDTH - 2, m);
  }

  lemma SmearRound(n: nat, m: nat, c: nat)
    requires forall i: nat :: i > m ==> !Bit(n, i)
    requires forall i: nat :: i <= m < i + c ==> Bit(n, i)
    ensures forall i: nat :: i > m ==> !Bit(Or(n, Shr(n, c)), i)
    ensures forall i: nat :: i <= m < i + 2 * c ==> Bit(Or(n, Shr(n, c)), i)
  {
    forall i: nat
      ensures i > m ==> !Bit(Or(n, Shr(n, c)), i)
      ensures i <= m < i + 2 * c ==> Bit(Or(n, Shr(n, c)), i)
    {
      OrBit(n, Shr(n, c), i);
      ShrBit(n, c, i);
    }
  }

  lemma LogSmall(n: nat)
    requires 0 < n <= SZ_MAX
    ensures Log(n) <= SZ_WIDTH - 2
  {
    LogBounds(n);
    KnownPowers();
    Pow2Order(SZ_WIDTH - 1, Log(n));
  }

  lemma NextPower(n: nat, m: nat)
    requires n > 0 && m == Log(n) && !IsPowerOfTwo(n)
    ensures LeastPowerGeq(n, Pow2(m + 1))
  {
    LogBounds(n);
    forall k: nat | n <= Pow2(k)
      ensures Pow2(m + 1) <= Pow2(k)
    {
      Pow2Order(m, k);
      Pow2Order(m + 1, k);
      assert n != Pow2(m);
    }
  }

  /** `max_power_of_two_leq`. It goes through the next power of two, so it fails above 2^62 too. */
  method MaxPowerOfTwoLeq(n: int) returns (r: Result<nat>)
    requires n <= SZ_MAX
    ensures r.Ok? <==> 0 < n <= Pow2(SZ_WIDTH - 2)
    ensures r.Ok? ==> IsPowerOfTwo(r.value) && r.value <= n && forall k: nat :: Pow2(k) <= n ==> Pow2(k) <= r.value
    ensures !r.Ok? ==> r == Crashed
  {
    if n <= 0 {
      return Crashed;
    }
    PowerTest(n);
    if And(n, n - 1) == 0 {
      PowerFits(n);
      return Ok(n);
    }
    r := MinPowerOfTwoGeq(n);
    if !r.Ok? {
      return r;
    }
    ghost var k: nat :| r.value == Pow2(k);
    assert Pow2(0) == 1;
    assert r.value / 2 == Pow2(k - 1);
    forall j: nat | Pow2(j) <= n
      ensures Pow2(j) <= r.value / 2
    {
      Pow2Order(k, j);
      Pow2Order(j, k - 1);
    }
    return Ok(r.value / 2);
  }

  /** `order_of`: undefined (a failed assertion) unless the argument is a power of two. */
  method OrderOf(len0: nat) returns (r: Result<nat>)
    ensures r.Ok? <==> IsPowerOfTwo(len0)
    ensures r.Ok? ==> Pow2(r.value) == len0
    ensures !r.Ok? ==> r == Crashed
  {
    if len0 == 0 {
      assert forall k: nat :: Pow2(k) > 0;
      return Crashed;
    }
    PowerTest(len0);
    if And(len0, len0 - 1) != 0 {
      return Crashed;
    }
    var len, ord := len0, 0;
    ghost var k: nat :| len0 == Pow2(k);
    while len / 2 > 0
      invariant ord <= k && len == Pow2(k - ord)
    {
      len := len / 2;
      ord := ord + 1;
    }
    return Ok(ord);
  }

  /** The least order whose block holds `size` bytes. */
  ghost predicate LeastOrder(size: nat, ord: nat)
  {
    && size <= PAGE_SIZE * Pow2(ord)
    && forall k: nat :: size <= PAGE_SIZE * Pow2(k) ==> ord <= k
  }

  /** The order that `buddy_alloc` (lines 212 to 221) and `buddy_free` (lines 231 to 236) compute. A size
      that is not positive fails an assertion; one above 2^62 overflows. */
  method OrderForSize(size: int) returns (r: Result<nat>)
    requires size <= SZ_MAX
    ensures r.Ok? <==> 0 < size <= Pow2(SZ_WIDTH - 2)
    ensures if r.Ok? then LeastOrder(size, r.value) else r == Crashed
  {
    KnownPowers();
    if size <= 0 || size + (PAGE_SIZE - 1) > SZ_MAX {
      return Crashed;
    }
    var realSize := AlignUp(size, PAGE_SIZE);
    RoundingFits(size, 0x4_0000_0000_0000);
    r := MinPowerOfTwoGeq(realSize);
    if !r.Ok? {
      return r;
    }
    ghost var k: nat :| r.value == Pow2(k);
    PageIsPower(k);
    r := OrderOf(r.value / PAGE_SIZE);
    OrderIsLeast(size, k, r.value);
  }

  lemma PageIsPower(k: nat)
    requires Pow2(k) >= PAGE_SIZE
    ensures k >= 12 && Pow2(k) == PAGE_SIZE * Pow2(k - 12) && Pow2(k) / PAGE_SIZE == Pow2(k - 12)
  {
    KnownPowers();
    Pow2Order(12, k);
    Pow2Add(k - 12, 12);
  }

  lemma OrderIsLeast(size: nat, k: nat, ord: nat)
    requires 0 < AlignUp(size, PAGE_SIZE) && LeastPowerGeq(AlignUp(size, PAGE_SIZE), Pow2(k))
    requires Pow2(k) >= PAGE_SIZE && Pow2(ord) == Pow2(k) / PAGE_SIZE
    ensures LeastOrder(size, ord)
  {
    PageIsPower(k);
    Pow2Order(ord, k - 12);
    Pow2Order(k - 12, ord);
    forall j: nat | size <= PAGE_SIZE * Pow2(j)
      ensures ord <= j
    {
      RoundingFits(size, Pow2(j));
      PagesArePower(j);
      Pow2Order(k, j + 12);
    }
    RoundingFits(size, Pow2(ord));
  }

  lemma PagesArePower(j: nat)
    ensures PAGE_SIZE * Pow2(j) == Pow2(j + 12)
  {
    Pow2Add(j, 12);
    KnownPowers();
  }

  /** Rounding up to whole pages does not change which numbers of pages hold a size. */
  lemma RoundingFits(size: nat, pages: nat)
    ensures size <= PAGE_SIZE * pages <==> AlignUp(size, PAGE_SIZE) <= PAGE_SIZE * pages
  {
  }

  /** There is only one least order; kvalloc's extra rounding does not change it. So whatever
      way a block is allocated, freeing it computes the same order. */
  lemma SameOrder(size: nat, a: nat, b: nat)
    requires LeastOrder(size, a)
    requires LeastOrder(size, b) || LeastOrder(AlignUp(size, PAGE_SIZE), b)
    ensures a == b && AlignUp(AlignUp(size, PAGE_SIZE), PAGE_SIZE) == AlignUp(size, PAGE_SIZE)
  {
    RoundingFits(size, Pow2(a));
    RoundingFits(size, Pow2(b));
  }

  /** The order of the managed memory in `buddy_init`: the largest whose block fits `avail` bytes. */
  method InitialOrder(avail: int) returns (r: Result<nat>)
    requires avail <= SZ_MAX
    ensures r.Ok? <==> PAGE_SIZE <= avail <= Pow2(SZ_WIDTH - 2)
    ensures r.Ok? ==> PAGE_SIZE * Pow2(r.value) <= avail && r.value <= 50
    ensures r.Ok? ==> forall k: nat :: PAGE_SIZE * Pow2(k) <= avail ==> k <= r.value
    ensures !r.Ok? ==> r == Crashed
  {
    r := MaxPowerOfTwoLeq(avail);
    if !r.Ok? {
      return r;
    }
    var p := r.value;
    ghost var k: nat :| p == Pow2(k);
    KnownPowers();
    if p >= PAGE_SIZE {
      PageIsPower(k);
    }
    r := OrderOf(p / PAGE_SIZE);
    if r.Ok? {
      PageIsPower(k);
      Pow2Order(r.value, k - 12);
      Pow2Order(k - 12, r.value);
      Pow2Order(k, SZ_WIDTH - 2);
      forall j: nat | PAGE_SIZE * Pow2(j) <= avail
        ensures j <= r.value
      {
        PagesArePower(j);
        Pow2Order(j + 12, k);
      }
    }
  }
}
