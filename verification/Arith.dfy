/** Division facts for variable divisors, which the solver does not find by itself, and powers of two. */
module Arith {

  lemma MulMono(a: nat, b: int, c: int)
    requires b <= c
    ensures a * b <= a * c
  {
    assert a * (c - b) >= 0;
  }

  lemma SmallMultiple(d: nat, e: int)
    requires d * e < d && d * e > 0 - d
    ensures e == 0
  {
    if e > 0 {
      MulMono(d, 1, e);
    } else if e < 0 {
      MulMono(d, e, -1);
    }
  }

  lemma DivDiv(x: int, a: nat, b: nat)
    requires a > 0 && b > 0
    ensures a * b > 0 && x / (a * b) == x / a / b
  {
    var k := x / a / b;
    var u, y := x / a % b, x % a;
    assert x / a == b * k + u;
    assert x == a * (x / a) + y;
    assert x == (a * b) * k + (a * u + y) by {
      assert a * (b * k + u) == (a * b) * k + a * u;
    }
    MulMono(a, u, b - 1);
    assert a * (b - 1) == a * b - a;
    assert 0 <= a * u + y < a * b;
    DivUnique(x, a * b, k, a * u + y);
  }

  lemma DivUnique(x: int, d: int, k: int, y: int)
    requires 0 <= y < d && x == d * k + y
    ensures x / d == k
  {
    var k', y' := x / d, x % d;
    assert x == d * k' + y' && 0 <= y' < d;
    assert d * (k - k') == y' - y;
    SmallMultiple(d, k - k');
  }

  lemma MultipleOut(q: int, m: nat, r: nat, s: nat)
    requires s > 0
    ensures (q * m * s + r) / s == q * m + r / s
  {
    assert q * m * s + r == s * (q * m + r / s) + r % s;
    DivUnique(q * m * s + r, s, q * m + r / s, r % s);
  }

  lemma NextMultiple(d: nat, m: int, k: int)
    requires d * m < d * k
    ensures d * m + d <= d * k
  {
    if m >= k {
      MulMono(d, k, m);
    }
    MulMono(d, m + 1, k);
    assert d * (m + 1) == d * m + d;
  }

  lemma MultipleOfMultiple(b: int, d: nat, k: nat)
    requires d > 0 && k * d > 0 && b % (k * d) == 0
    ensures b % d == 0
  {
    var e := k * d;
    var q := b / e;
    assert b == e * q;
    assert e * q == d * (k * q) by {
      assert (k * d) * q == d * (k * q);
    }
    DivUnique(b, d, k * q, 0);
  }

  /** ALIGN_UP: the next multiple of `a`. */
  function AlignUp(v: int, a: nat): int
    requires a > 0
  {
    (v + a - 1) / a * a
  }

  // ----- Powers of two -------------------------------------------------------------------------

  function Pow2(k: nat): (p: nat)
    ensures p > 0
  {
    if k == 0 then 1 else 2 * Pow2(k - 1)
  }

  lemma {:induction false} Pow2Order(a: nat, b: nat)
    ensures a <= b ==> Pow2(a) <= Pow2(b)
    ensures Pow2(a) <= Pow2(b) ==> a <= b
  {
    if a > 0 && b > 0 {
      Pow2Order(a - 1, b - 1);
    }
  }

  lemma {:induction false} Pow2Add(a: nat, b: nat)
    ensures Pow2(a + b) == Pow2(a) * Pow2(b)
  {
    if b > 0 {
      Pow2Add(a, b - 1);
      assert Pow2(a + b) == 2 * Pow2(a + (b - 1));
    }
  }

  lemma KnownPowers()
    ensures Pow2(12) == 0x1000
    ensures Pow2(50) == 0x4_0000_0000_0000 && Pow2(51) == 0x8_0000_0000_0000
    ensures Pow2(62) == 0x4000_0000_0000_0000 && Pow2(63) == 0x8000_0000_0000_0000
  {
    SmallPowers();
    Pow2Add(12, 12);
    Pow2Add(24, 24);
    Pow2Add(48, 2);
    Pow2Add(50, 12);
  }

  lemma SmallPowers()
    ensures Pow2(2) == 4 && Pow2(12) == 0x1000
  {
    Pow2Add(2, 2);
    Pow2Add(4, 4);
    Pow2Add(8, 4);
  }
}
