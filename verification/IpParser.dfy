/** `ipv4_addr_parse` of src/net/ip_addr.c, which accepts exactly the texts of addresses. */
module IpParser {
  import opened Common
  import opened IpAddr

  // ----- What the loops compute ----------------------------------------------------------------

  predicate Between(t: string, i: nat, lo: char, hi: char)
  {
    i < |t| && lo <= t[i] <= hi
  }

  /** The number at the start of `t` that is taken for an octet, and its length. */
  function Octet(t: string): (r: Option<(Byte, nat)>)
    ensures r.Some? ==> 0 < r.value.1 <= |t|
  {
    if Between(t, 0, '2', '2') && Between(t, 1, '5', '5') && Between(t, 2, '0', '5') then
      Some((250 + DigitValue(t[2]), 3))
    else if Between(t, 0, '2', '2') && Between(t, 1, '0', '4') && Between(t, 2, '0', '9') then
      Some((200 + 10 * DigitValue(t[1]) + DigitValue(t[2]), 3))
    else if Between(t, 0, '1', '1') && Between(t, 1, '0', '9') && Between(t, 2, '0', '9') then
      Some((100 + 10 * DigitValue(t[1]) + DigitValue(t[2]), 3))
    else if Between(t, 0, '1', '9') && Between(t, 1, '0', '9') then
      Some((10 * DigitValue(t[0]) + DigitValue(t[1]), 2))
    else if Between(t, 0, '0', '9') then
      Some((DigitValue(t[0]), 1))
    else
      None
  }

  /** `n` octets with dots between them, and what is left of the text. */
  function Octets(t: string, n: nat): (r: Option<(seq<Byte>, string)>)
    requires n > 0
    ensures r.Some? ==> |r.value.0| == n
  {
    match Octet(t)
    case None => None
    case Some((o, k)) =>
      if n == 1 then Some(([o], t[k..]))
      else if k == |t| || t[k] != '.' then None
      else
        match Octets(t[k + 1..], n - 1)
        case None => None
        case Some((os, rest)) => Some(([o] + os, rest))
  }

  /** The prefix length behind the address. */
  function Prefix(t: string): Option<nat>
  {
    if t == [] then Some(32)
    else if t[0] != '/' then None
    else if Between(t, 1, '3', '3') && Between(t, 2, '0', '2') then
      if |t| == 3 then Some(30 + DigitValue(t[2])) else None
    else if Between(t, 1, '1', '2') && Between(t, 2, '0', '9') then
      if |t| == 3 then Some(10 * DigitValue(t[1]) + DigitValue(t[2])) else None
    else if Between(t, 1, '1', '9') then
      if |t| == 2 then Some(DigitValue(t[1])) else None
    else None
  }

  // ----- Exactness -----------------------------------------------------------------------------

  predicate NoDigitFirst(t: string) { t == [] || !IsDigit(t[0]) }

  lemma OctetSound(t: string)
    requires Octet(t).Some?
    ensures var (n, k) := Octet(t).value; t[..k] == Decimal(n)
  {
    var k := Octet(t).value.1;
    OctetText(Octet(t).value.0);
    hide Decimal;
    assert k == 1 ==> t[..k] == [t[0]];
    assert k == 2 ==> t[..k] == [t[0], t[1]];
    assert k == 3 ==> t[..k] == [t[0], t[1], t[2]];
  }

  lemma OctetComplete(n: Byte, rest: string)
    requires NoDigitFirst(rest)
    ensures Octet(Decimal(n) + rest) == Some((n, |Decimal(n)|))
  {
    OctetText(n);
  }

  /** The text of several octets. */
  function Dotted(os: seq<Byte>): string
  {
    if os == [] then [] else if |os| == 1 then Decimal(os[0]) else Decimal(os[0]) + "." + Dotted(os[1..])
  }

  lemma {:induction false} OctetsSound(t: string, n: nat)
    requires n > 0 && Octets(t, n).Some?
    ensures var (os, rest) := Octets(t, n).value; t == Dotted(os) + rest
  {
    hide Octet, Decimal;
    var (o, k) := Octet(t).value;
    OctetSound(t);
    assert t == t[..k] + t[k..];
    if n > 1 {
      OctetsSound(t[k + 1..], n - 1);
      var (os, rest) := Octets(t[k + 1..], n - 1).value;
      assert ([o] + os)[1..] == os;
      assert t == t[..k] + "." + t[k + 1..];
    }
  }

  lemma {:induction false} OctetsComplete(os: seq<Byte>, rest: string)
    requires os != [] && NoDigitFirst(rest)
    ensures Octets(Dotted(os) + rest, |os|) == Some((os, rest))
  {
    hide Octet, Decimal;
    var d := Decimal(os[0]);
    if |os| == 1 {
      OctetComplete(os[0], rest);
      assert (d + rest)[|d|..] == rest && os == [os[0]];
    } else {
      var more := Dotted(os[1..]) + rest;
      OctetsComplete(os[1..], rest);
      OctetComplete(os[0], "." + more);
      BehindDot(d, Dotted(os[1..]), rest);
      assert [os[0]] + os[1..] == os;
    }
  }

  lemma BehindDot(d: string, e: string, rest: string)
    ensures var t := d + "." + e + rest;
            t == d + ("." + (e + rest)) && t[|d|] == '.' && t[|d| + 1..] == e + rest
  {
    var t := d + "." + e + rest;
    assert t == d + ("." + (e + rest));
  }

  lemma PrefixSound(t: string)
    requires Prefix(t).Some?
    ensures 1 <= Prefix(t).value <= 32
    ensures t == [] || t == "/" + Decimal(Prefix(t).value)
  {
    OctetText(Prefix(t).value);
  }

  lemma PrefixComplete(p: nat)
    requires 1 <= p <= 32
    ensures Prefix("/" + Decimal(p)) == Some(p)
  {
    OctetText(p);
  }

  function AddrOf(os: seq<Byte>): Addr
    requires |os| == 4
  {
    Addr(os[0], os[1], os[2], os[3])
  }

  lemma DottedFour(a: Addr)
    ensures Dotted([a.a0, a.a1, a.a2, a.a3]) == Format(a)
  {
    var os := [a.a0, a.a1, a.a2, a.a3];
    assert os[1..] == [a.a1, a.a2, a.a3] && os[1..][1..] == [a.a2, a.a3] && os[1..][1..][1..] == [a.a3];
    assert Dotted(os[1..][1..]) == Decimal(a.a2) + "." + Decimal(a.a3);
    assert Dotted(os[1..]) == Decimal(a.a1) + "." + Dotted(os[1..][1..]);
  }

  /** The parser's result, from its parts. */
  function ParseText(s: string): Option<Parsed>
  {
    match Octets(s, 4)
    case None => None
    case Some((os, rest)) =>
      match Prefix(rest)
      case None => None
      case Some(p) => if 1 <= p <= 32 then Some(Parsed(AddrOf(os), Mask(p))) else None
  }

  /** Whatever is accepted is the text of the address returned. */
  lemma ParseSound(s: string) returns (prefix: Option<nat>)
    requires ParseText(s).Some?
    ensures PrefixOk(prefix) && s == Text(ParseText(s).value.addr, prefix)
    ensures ParseText(s).value.mask == Mask(PrefixOf(prefix))
  {
    var (os, rest) := Octets(s, 4).value;
    OctetsSound(s, 4);
    PrefixSound(rest);
    DottedFour(AddrOf(os));
    assert os == [os[0], os[1], os[2], os[3]];
    prefix := if rest == [] then None else Some(Prefix(rest).value);
    assert Dotted(os) + [] == Dotted(os);
    assert Dotted(os) + ("/" + Decimal(Prefix(rest).value)) == Dotted(os) + "/" + Decimal(Prefix(rest).value);
  }

  /** Every such text is accepted and gives that address and the mask for its prefix length. */
  lemma ParseComplete(a: Addr, prefix: Option<nat>)
    requires PrefixOk(prefix)
    ensures ParseText(Text(a, prefix)) == Some(Parsed(a, Mask(PrefixOf(prefix))))
  {
    var os := [a.a0, a.a1, a.a2, a.a3];
    DottedFour(a);
    match prefix
    case None =>
      OctetsComplete(os, []);
      assert Dotted(os) + [] == Dotted(os);
    case Some(p) =>
      OctetsComplete(os, "/" + Decimal(p));
      assert Dotted(os) + ("/" + Decimal(p)) == Dotted(os) + "/" + Decimal(p);
      PrefixComplete(p);
  }

  /** So different addresses never have the same text. */
  lemma TextDetermines(a: Addr, p: Option<nat>, b: Addr, q: Option<nat>)
    requires PrefixOk(p) && PrefixOk(q) && Text(a, p) == Text(b, q)
    ensures a == b && PrefixOf(p) == PrefixOf(q)
  {
    ParseComplete(a, p);
    ParseComplete(b, q);
    MasksDiffer(PrefixOf(p), PrefixOf(q));
  }

  // ----- The C code ----------------------------------------------------------------------------

  /** The choices in the parser's loop, at position `i`. */
  method OctetAt(s: string, i: nat) returns (r: Option<(Byte, nat)>)
    requires i < |s|
    ensures r == Octet(s[i..])
  {
    if i + 2 < |s| && s[i] == '2' && s[i + 1] == '5' && '0' <= s[i + 2] <= '5' {
      return Some((250 + DigitValue(s[i + 2]), 3));
    }
    if i + 2 < |s| && s[i] == '2' && '0' <= s[i + 1] <= '4' && IsDigit(s[i + 2]) {
      return Some((200 + 10 * DigitValue(s[i + 1]) + DigitValue(s[i + 2]), 3));
    }
    if i + 2 < |s| && s[i] == '1' && IsDigit(s[i + 1]) && IsDigit(s[i + 2]) {
      return Some((100 + 10 * DigitValue(s[i + 1]) + DigitValue(s[i + 2]), 3));
    }
    if i + 1 < |s| && '1' <= s[i] <= '9' && IsDigit(s[i + 1]) {
      return Some((10 * DigitValue(s[i]) + DigitValue(s[i + 1]), 2));
    }
    if IsDigit(s[i]) {
      return Some((DigitValue(s[i]), 1));
    }
    return None;
  }

  /** The choices for the prefix length, behind the address at position `i`. */
  method PrefixAt(s: string, i: nat) returns (r: Option<nat>)
    requires i <= |s|
    ensures r == Prefix(s[i..])
  {
    var p, j: nat := 32, i;
    if j < |s| {
      if s[j] != '/' {
        return None;
      }
      j := j + 1;
      if j + 1 < |s| && s[j] == '3' && '0' <= s[j + 1] <= '2' {
        p, j := 30 + DigitValue(s[j + 1]), j + 2;
      } else if j + 1 < |s| && '1' <= s[j] <= '2' && IsDigit(s[j + 1]) {
        p, j := 10 * DigitValue(s[j]) + DigitValue(s[j + 1]), j + 2;
      } else if j < |s| && '1' <= s[j] <= '9' {
        p, j := DigitValue(s[j]), j + 1;
      } else {
        return None;
      }
    }
    if j != |s| {
      return None;
    }
    return Some(p);
  }

  /** `ipv4_addr_parse` succeeds exactly on the texts of addresses, with or without a prefix length
      from 1 to 32, and returns the address and the mask. */
  method Parse(s: string) returns (r: Result<Parsed>)
    ensures r.Ok? ==>
              exists prefix ::
                PrefixOk(prefix) && s == Text(r.value.addr, prefix) && r.value.mask == Mask(PrefixOf(prefix))
    ensures !r.Ok? ==> r == Err(EINVAL) && forall a, prefix :: PrefixOk(prefix) ==> s != Text(a, prefix)
  {
    hide Octet, Octets, Prefix, Text, Mask, Continues;
    forall a, prefix | PrefixOk(prefix)
      ensures s == Text(a, prefix) ==> ParseText(s).Some?
    {
      ParseComplete(a, prefix);
    }
    var octets: seq<Byte>, i: nat := [], 0;
    NoOctet(4);
    ContinuesAtStart(Octets(s, 4));
    assert s[0..] == s;
    ghost var complete := false;
    while i < |s|
      invariant |octets| < 4 && i <= |s| && !complete
      invariant Continues(Octets(s, 4), octets, Octets(s[i..], 4 - |octets|))
    {
      ghost var t := s[i..];
      OneOctet(Octets(s, 4), octets, t, 4 - |octets|);
      var o := OctetAt(s, i);
      if o.None? {
        return Err(EINVAL);
      }
      assert t[o.value.1..] == s[i + o.value.1..];
      assert o.value.1 < |t| ==> t[o.value.1 + 1..] == s[i + o.value.1 + 1..];
      octets, i := octets + [o.value.0], i + o.value.1;
      complete := |octets| == 4;
      if |octets| >= 4 || i >= |s| {
        break;
      }
      if s[i] != '.' {
        return Err(EINVAL);
      }
      i := i + 1;
    }
    if |octets| < 4 {
      NoOctet(4 - |octets|);
      assert s[i..] == [];
      if Octets(s, 4).Some? {
        NoneContinues(Octets(s, 4), octets);
      }
    }
    assert if complete then Octets(s, 4) == Some((octets, s[i..])) else Octets(s, 4).None?;
    if |octets| != 4 {
      return Err(EINVAL);
    }
    var prefix := PrefixAt(s, i);
    if prefix.None? {
      return Err(EINVAL);
    }
    PrefixSound(s[i..]);
    ghost var accepted := ParseSound(s);
    return Ok(Parsed(AddrOf(octets), Mask(prefix.value)));
  }

  /** The octets of the whole are those read so far and those to come. */
  ghost predicate Continues(whole: Option<(seq<Byte>, string)>, octets: seq<Byte>, more: Option<(seq<Byte>, string)>)
  {
    && (whole.Some? <==> more.Some?)
    && (more.Some? ==> whole.value == (octets + more.value.0, more.value.1))
  }

  lemma NoOctet(n: nat)
    requires n > 0
    ensures Octets([], n) == None
  {
  }

  lemma ContinuesAtStart(whole: Option<(seq<Byte>, string)>)
    ensures Continues(whole, [], whole)
  {
    if whole.Some? {
      assert [] + whole.value.0 == whole.value.0;
    }
  }

  lemma OneOctet(whole: Option<(seq<Byte>, string)>, octets: seq<Byte>, t: string, n: nat)
    requires n > 0 && Continues(whole, octets, Octets(t, n))
    ensures Octet(t).None? ==> whole == None
    ensures Octet(t).Some? ==>
              var (o, k) := Octet(t).value;
              if n == 1 then whole == Some((octets + [o], t[k..]))
              else if k == |t| || t[k] != '.' then whole == None
              else Continues(whole, octets + [o], Octets(t[k + 1..], n - 1))
  {
    hide Octet;
    if Octet(t).Some? && n > 1 {
      var (o, k) := Octet(t).value;
      if k < |t| && Octets(t[k + 1..], n - 1).Some? {
        var os := Octets(t[k + 1..], n - 1).value.0;
        assert octets + ([o] + os) == octets + [o] + os;
      }
    }
  }

  lemma NoneContinues(whole: Option<(seq<Byte>, string)>, octets: seq<Byte>)
    requires Continues(whole, octets, None)
    ensures whole == None
  {
  }
}
