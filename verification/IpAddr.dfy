/** IPv4 addresses as text and as masks: src/net/ip_addr.c, include/tx/net/ip_addr.h, and the decimal
    printer of include/tx/fmt.h. */
module IpAddr {
  import opened Arith
  import opened Common

  datatype Addr = Addr(a0: Byte, a1: Byte, a2: Byte, a3: Byte)

  datatype Parsed = Parsed(addr: Addr, mask: Addr)

  // ----- Decimal numbers -----------------------------------------------------------------------

  function Digit(d: nat): char
    requires d < 10
  {
    '0' + d as char
  }

  predicate IsDigit(c: char) { '0' <= c <= '9' }

  function DigitValue(c: char): (d: nat)
    requires IsDigit(c)
    ensures d < 10 && Digit(d) == c
  {
    (c - '0') as nat
  }

  /** `n` in decimal, without leading zeros. */
  function Decimal(n: nat): (s: string)
    ensures |s| > 0
  {
    if n < 10 then [Digit(n)] else Decimal(n / 10) + [Digit(n % 10)]
  }

  function Value(s: string): nat
    requires forall c :: c in s ==> IsDigit(c)
  {
    if s == [] then 0 else 10 * Value(s[..|s| - 1]) + DigitValue(s[|s| - 1])
  }

  /** Different numbers are printed differently: the digits determine the number. */
  lemma {:induction false} DecimalValue(n: nat)
    ensures forall c :: c in Decimal(n) ==> IsDigit(c)
    ensures Value(Decimal(n)) == n
    ensures n > 0 ==> Decimal(n)[0] != '0'
  {
    if n >= 10 {
      DecimalValue(n / 10);
      assert Decimal(n)[..|Decimal(n)| - 1] == Decimal(n / 10);
    } else {
      assert Decimal(n)[..0] == [];
    }
  }

  lemma {:induction false} DecimalLength(n: nat, k: nat)
    requires n < Pow10(k) && k > 0
    ensures |Decimal(n)| <= k
  {
    if n >= 10 {
      DecimalLength(n / 10, k - 1);
    }
  }

  function Pow10(k: nat): nat { if k == 0 then 1 else 10 * Pow10(k - 1) }

  /** The digit loop of `fmt_append_u64`, which fills a buffer from its end and never runs over its
      beginning. */
  method AppendU64(x: nat, buf: string) returns (r: string)
    requires x < 0x1_0000_0000_0000_0000
    ensures r == buf + Decimal(x)
  {
    var tmp := new char[64];
    var beg, rest := 64, x;
    U64Length(x);
    beg := beg - 1;
    tmp[beg] := Digit(rest % 10);
    rest := rest / 10;
    while rest != 0
      invariant 0 <= beg < 64 && Decimal(x) == (if rest == 0 then [] else Decimal(rest)) + tmp[beg..]
      decreases rest
    {
      beg := beg - 1;
      tmp[beg] := Digit(rest % 10);
      rest := rest / 10;
    }
    return buf + tmp[beg..];
  }

  lemma U64Length(x: nat)
    requires x < 0x1_0000_0000_0000_0000
    ensures |Decimal(x)| <= 20
  {
    assert Pow10(10) == 10_000_000_000;
    assert Pow10(20) == 10_000_000_000 * Pow10(10);
    DecimalLength(x, 20);
  }

  // ----- Text ----------------------------------------------------------------------------------

  /** `ipv4_addr_format` */
  function Format(a: Addr): string
  {
    Decimal(a.a0) + "." + Decimal(a.a1) + "." + Decimal(a.a2) + "." + Decimal(a.a3)
  }

  /** The texts that the parser is meant for: an address, and a prefix length if there is one. */
  function Text(a: Addr, prefix: Option<nat>): string
  {
    match prefix
    case None => Format(a)
    case Some(p) => Format(a) + "/" + Decimal(p)
  }

  predicate PrefixOk(prefix: Option<nat>) { prefix.Some? ==> 1 <= prefix.value <= 32 }

  function PrefixOf(prefix: Option<nat>): nat { if prefix.Some? then prefix.value else 32 }

  method FormatAddr(a: Addr) returns (r: string)
    ensures r == Format(a) && |r| <= 15
  {
    hide Decimal;
    r := AppendU64(a.a0, []);
    r := AppendU64(a.a1, r + ".");
    r := AppendU64(a.a2, r + ".");
    r := AppendU64(a.a3, r + ".");
    FormatLength(a);
  }

  lemma KnownAddress()
    ensures Format(Addr(192, 168, 1, 20)) == "192.168.1.20"
  {
    OctetText(192);
    OctetText(168);
    OctetText(1);
    OctetText(20);
  }

  lemma FormatLength(a: Addr)
    ensures |Format(a)| <= 15
  {
    hide Decimal;
    assert Pow10(3) == 1000;
    DecimalLength(a.a0, 3);
    DecimalLength(a.a1, 3);
    DecimalLength(a.a2, 3);
    DecimalLength(a.a3, 3);
  }

  lemma OctetText(n: Byte)
    ensures Decimal(n) ==
              if n < 10 then [Digit(n)]
              else if n < 100 then [Digit(n / 10), Digit(n % 10)]
              else [Digit(n / 100), Digit(n / 10 % 10), Digit(n % 10)]
  {
    if n >= 100 {
      assert n / 10 / 10 == n / 100;
      assert Decimal(n / 10) == [Digit(n / 100)] + [Digit(n / 10 % 10)];
    }
  }

  // ----- Masks ---------------------------------------------------------------------------------

  function Raw(a: Addr): nat { a.a0 * 0x100_0000 + a.a1 * 0x1_0000 + a.a2 * 0x100 + a.a3 }

  function FromRaw(raw: nat): Addr
    requires raw < 0x1_0000_0000
  {
    Addr(raw / 0x100_0000, raw / 0x1_0000 % 0x100, raw / 0x100 % 0x100, raw % 0x100)
  }

  lemma Pow2Bounds(k: nat)
    requires k <= 32
    ensures Pow2(k) <= 0x1_0000_0000 == Pow2(32)
    ensures k < 32 ==> 2 * Pow2(k) <= 0x1_0000_0000
  {
    if k < 32 {
      Pow2Order(k + 1, 32);
    }
    Pow2At32();
  }

  lemma Pow2At32()
    ensures Pow2(32) == 0x1_0000_0000
  {
    assert Pow2(4) == 16;
    Pow2Add(4, 4);
    hide Pow2;
    Pow2Add(8, 8);
    Pow2Add(16, 16);
  }

  /** `prefix_length_to_mask`: `p` ones and then zeros. */
  function Mask(p: nat): (m: Addr)
    requires 1 <= p <= 32
  {
    Pow2Bounds(32 - p);
    FromRaw(0x1_0000_0000 - Pow2(32 - p))
  }

  /** An octet that begins with `k` ones. */
  function Ones(k: nat): Byte
    requires k <= 8
  {
    Pow2Bounds(8 - k);
    Pow2Order(8 - k, 8);
    assert Pow2(4) == 16;
    Pow2Add(4, 4);
    256 - Pow2(8 - k)
  }

  /** The ones fill the first octet first, then the second, and so on. */
  lemma MaskOctets(p: nat)
    requires 1 <= p <= 32
    ensures Mask(p) == Addr(Ones(Min(8, p)), Ones(Min(8, Max(0, p - 8))), Ones(Min(8, Max(0, p - 16))),
                            Ones(Max(0, p - 24)))
  {
    hide FromRaw, Raw, Ones, Pow2;
    var a := Addr(Ones(Min(8, p)), Ones(Min(8, Max(0, p - 8))), Ones(Min(8, Max(0, p - 16))), Ones(Max(0, p - 24)));
    Pow2Bounds(32 - p);
    MaskRaw(a, p);
    FromRawRaw(a);
  }

  lemma MaskRaw(a: Addr, p: nat)
    requires 1 <= p <= 32
    requires a.a0 == Ones(Min(8, p)) && a.a1 == Ones(Min(8, Max(0, p - 8)))
    requires a.a2 == Ones(Min(8, Max(0, p - 16))) && a.a3 == Ones(Max(0, p - 24))
    ensures Raw(a) == 0x1_0000_0000 - Pow2(32 - p)
  {
    hide Pow2, Ones;
    OnesAre(0);
    OnesAre(8);
    if p <= 8 {
      OnesAre(p);
      Shifted(8 - p);
    } else if p <= 16 {
      OnesAre(p - 8);
      Shifted(16 - p);
    } else if p <= 24 {
      OnesAre(p - 16);
      Shifted(24 - p);
    } else {
      OnesAre(p - 24);
    }
  }

  lemma OnesAre(k: nat)
    requires k <= 8
    ensures Ones(k) == 256 - Pow2(8 - k) && Ones(0) == 0 && Ones(8) == 255
  {
    assert Pow2(4) == 16;
    Pow2Add(4, 4);
  }

  lemma Shifted(j: nat)
    ensures Pow2(j + 8) == 0x100 * Pow2(j) && Pow2(j + 16) == 0x1_0000 * Pow2(j)
    ensures Pow2(j + 24) == 0x100_0000 * Pow2(j)
  {
    assert Pow2(4) == 16;
    hide Pow2;
    Pow2Add(4, 4);
    Pow2Add(j, 8);
    Pow2Add(j + 8, 8);
    Pow2Add(j + 16, 8);
  }

  lemma RawFromRaw(raw: nat)
    requires raw < 0x1_0000_0000
    ensures Raw(FromRaw(raw)) == raw
  {
    DivDiv(raw, 0x100, 0x100);
    DivDiv(raw, 0x1_0000, 0x100);
    var q1, q2 := raw / 0x100, raw / 0x1_0000;
    assert raw == q1 * 0x100 + raw % 0x100 && q1 == q2 * 0x100 + q1 % 0x100;
    assert q2 == raw / 0x100_0000 * 0x100 + q2 % 0x100;
  }

  lemma FromRawRaw(a: Addr)
    ensures Raw(a) < 0x1_0000_0000 && FromRaw(Raw(a)) == a
  {
    var high, middle := a.a0 * 0x100 + a.a1, (a.a0 * 0x100 + a.a1) * 0x100 + a.a2;
    Digits(a.a0, a.a1 * 0x1_0000 + a.a2 * 0x100 + a.a3, 0x100_0000);
    Digits(high, a.a2 * 0x100 + a.a3, 0x1_0000);
    Digits(a.a0, a.a1, 0x100);
    Digits(middle, a.a3, 0x100);
    Digits(high, a.a2, 0x100);
  }

  lemma Digits(high: nat, low: nat, base: nat)
    requires low < base
    ensures (high * base + low) / base == high && (high * base + low) % base == low
  {
    DivUnique(high * base + low, base, high, low);
  }

  /** The number of binary digits. */
  function Bits(n: nat): nat { if n == 0 then 0 else 1 + Bits(n / 2) }

  lemma {:induction false} BitsOfOnes(k: nat)
    ensures Bits(Pow2(k) - 1) == k
  {
    if k > 0 {
      BitsOfOnes(k - 1);
      assert (Pow2(k) - 1) / 2 == Pow2(k - 1) - 1;
    }
  }

  lemma {:induction false} BitsBound(n: nat, k: nat)
    requires n < Pow2(k)
    ensures Bits(n) <= k
  {
    if n > 0 {
      BitsBound(n / 2, k - 1);
    }
  }

  lemma MaskIs(mask: Addr, p: nat)
    requires 1 <= p <= 32
    ensures mask == Mask(p) <==> Raw(mask) == 0x1_0000_0000 - Pow2(32 - p)
    ensures mask == Mask(p) ==> 0 < Raw(mask) < 0x1_0000_0000 && Bits(0xffff_ffff - Raw(mask)) == 32 - p
  {
    hide Pow2, Raw, FromRaw;
    FromRawRaw(mask);
    Pow2Bounds(32 - p);
    RawFromRaw(0x1_0000_0000 - Pow2(32 - p));
    BitsOfOnes(32 - p);
  }

  /** `ipv4_mask_prefix_length` inverts it, and fails an assertion on everything else. */
  method MaskPrefixLength(mask: Addr) returns (r: Result<nat>)
    ensures r.Ok? ==> 1 <= r.value <= 32 && mask == Mask(r.value)
    ensures !r.Ok? ==> r == Crashed && forall p :: 1 <= p <= 32 ==> mask != Mask(p)
  {
    hide Pow2, Raw, FromRaw, Mask;
    var raw := Raw(mask);
    FromRawRaw(mask);
    Pow2Bounds(32);
    forall p | 1 <= p <= 32
      ensures mask == Mask(p) <==> raw == 0x1_0000_0000 - Pow2(32 - p)
      ensures mask == Mask(p) ==> raw > 0 && Bits(0xffff_ffff - raw) == 32 - p
    {
      MaskIs(mask, p);
    }
    if raw == 0 {
      return Crashed;
    }
    var inv, p := 0xffff_ffff - raw, 32;
    BitsBound(inv, 32);
    while inv != 0
      invariant p == 32 - Bits(0xffff_ffff - raw) + Bits(inv)
      decreases inv
    {
      p := p - 1;
      inv := inv / 2;
    }
    if 0xffff_ffff - raw + 1 != Pow2(32 - p) {
      return Crashed;
    }
    if p <= 0 {
      return Crashed;
    }
    return Ok(p);
  }

  /** Different prefix lengths have different masks. */
  lemma MasksDiffer(p: nat, q: nat)
    requires 1 <= p <= 32 && 1 <= q <= 32 && Mask(p) == Mask(q)
    ensures p == q
  {
    hide Pow2, FromRaw;
    Pow2Bounds(32 - p);
    Pow2Bounds(32 - q);
    RawFromRaw(0x1_0000_0000 - Pow2(32 - p));
    RawFromRaw(0x1_0000_0000 - Pow2(32 - q));
    BitsOfOnes(32 - p);
    BitsOfOnes(32 - q);
  }
}
