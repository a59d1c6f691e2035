/** The internet checksum (RFC 1071) of src/net/ip.c, and the headers of src/net/ip.c and src/net/tcp.c
    that carry it. Words are read in the byte order of the machine, the low byte first. */
module Checksum {
  import opened Common

  const TWO32: nat := 0x1_0000_0000

  type U16 = n: nat | n < 0x1_0000

  function Word(lo: Byte, hi: Byte): U16 { lo + 256 * hi }

  /** The sum of all words; a last single byte counts as a word with a zero behind it. */
  function Words(data: seq<Byte>): nat
  {
    if data == [] then 0
    else if |data| == 1 then data[0]
    else Word(data[0], data[1]) + Words(data[2..])
  }

  /** The ones' complement sum: the residue of 65535, where zero stands for a sum of no ones only. */
  function Oc(n: nat): U16
  {
    if n == 0 then 0 else if n % 65535 == 0 then 65535 else n % 65535
  }

  /** These two properties determine the result. */
  lemma OcUnique(n: nat, r: U16)
    requires r % 65535 == n % 65535 && (r == 0 <==> n == 0)
    ensures r == Oc(n)
  {
  }

  lemma OcAdd(x: nat, y: nat)
    ensures Oc(Oc(x) + y) == Oc(x + y)
  {
    var q := (x - Oc(x)) / 65535;
    assert x == Oc(x) + 65535 * q by {
      assert (x - Oc(x)) % 65535 == 0;
    }
    assert (x + y) % 65535 == (Oc(x) + y) % 65535 by {
      assert x + y == Oc(x) + y + 65535 * q;
      AddMultiple(Oc(x) + y, q);
    }
  }

  lemma Congruent(x: int, y: int)
    requires x % 65535 == y % 65535
    ensures x == y + 65535 * ((x - y) / 65535)
  {
    assert x == x / 65535 * 65535 + x % 65535 && y == y / 65535 * 65535 + y % 65535;
    assert (x - y) / 65535 == x / 65535 - y / 65535 by {
      assert x - y == 65535 * (x / 65535 - y / 65535);
    }
  }

  lemma AddMultiple(n: int, q: int)
    ensures (n + 65535 * q) % 65535 == n % 65535
  {
  }

  // ----- The loops -----------------------------------------------------------------------------

  /** `internet_checksum_iterate`. The 32-bit sum can wrap. */
  method Iterate(checksum: U16, data: seq<Byte>) returns (r: U16)
    ensures r == Oc((checksum + Words(data)) % TWO32)
  {
    var sum, i := checksum, 0;
    while |data| - i > 1
      invariant 0 <= i <= |data| && sum == (checksum + Words(data) - Words(data[i..])) % TWO32
      invariant Words(data[i..]) <= Words(data)
    {
      assert data[i..][2..] == data[i + 2..];
      WrapAdd(checksum + Words(data) - Words(data[i..]), Word(data[i], data[i + 1]));
      sum := (sum + Word(data[i], data[i + 1])) % TWO32;
      i := i + 2;
    }
    if |data| - i > 0 {
      WrapAdd(checksum + Words(data) - Words(data[i..]), data[i]);
      sum := (sum + data[i]) % TWO32;
    }
    r := Fold(sum);
  }

  lemma WrapAdd(x: int, y: int)
    ensures (x % TWO32 + y) % TWO32 == (x + y) % TWO32
  {
  }

  /** The loop that folds the sum into 16 bits; it ends. */
  method Fold(s: nat) returns (r: U16)
    ensures r == Oc(s)
  {
    var sum := s;
    while sum / 0x1_0000 != 0
      invariant sum % 65535 == s % 65535 && (sum == 0 <==> s == 0)
      decreases sum
    {
      FoldStep(sum);
      sum := sum % 0x1_0000 + sum / 0x1_0000;
    }
    OcUnique(s, sum);
    return sum;
  }

  lemma FoldStep(n: nat)
    ensures (n % 0x1_0000 + n / 0x1_0000) % 65535 == n % 65535
    ensures n >= 0x1_0000 ==> 0 < n % 0x1_0000 + n / 0x1_0000 < n
  {
    var l, h := n % 0x1_0000, n / 0x1_0000;
    assert n == l + h + 65535 * h;
    AddMultiple(l + h, h);
  }

  /** Up to 128 KiB the sum does not wrap. */
  lemma {:induction false} WordsBound(data: seq<Byte>)
    ensures 2 * Words(data) <= 65535 * (|data| + 1)
    ensures |data| % 2 == 0 ==> 2 * Words(data) <= 65535 * |data|
  {
    if |data| > 1 {
      WordsBound(data[2..]);
    }
  }

  lemma NoWrapUpTo128K(checksum: U16, data: seq<Byte>)
    requires |data| <= 0x2_0000
    ensures (checksum + Words(data)) % TWO32 == checksum + Words(data)
  {
    WordsBound(data);
  }

  /** Where the sum wraps for the first time, the result is wrong. */
  lemma WrappedSumIsWrong(n: nat)
    requires n < 2 * TWO32
    ensures Oc(n % TWO32) == Oc(n) <==> n < TWO32
  {
    if n >= TWO32 {
      assert n == n % TWO32 + 1 + 65535 * 65537;
      AddMultiple(n % TWO32 + 1, 65537);
    }
  }

  /** `internet_checksum_finalize` */
  function Finalize(sum: U16): U16 { 65535 - sum }

  /** `internet_checksum`, for data that does not make the sum wrap. */
  function Sum(data: seq<Byte>): U16 { Finalize(Oc(Words(data))) }

  method InternetChecksum(data: seq<Byte>) returns (r: U16)
    requires |data| <= 0x2_0000
    ensures r == Sum(data)
  {
    NoWrapUpTo128K(0, data);
    var sum := Iterate(0, data);
    r := Finalize(sum);
  }

  /** What the sum of words is, byte by byte: a byte counts once at an even place and 256 times at an odd
      one, and nothing else counts. */
  lemma {:induction false} WordsByByte(data: seq<Byte>, i: nat, b: Byte)
    requires i < |data|
    ensures Words(data[i := b]) == Words(data) + (b - data[i]) * if i % 2 == 0 then 1 else 256
  {
    if i >= 2 {
      WordsByByte(data[2..], i - 2, b);
      assert data[i := b][2..] == data[2..][i - 2 := b];
    } else if |data| > 1 {
      assert data[i := b][2..] == data[2..];
    }
  }

  lemma {:induction false} WordsOfZeros(n: nat)
    ensures Words(seq(n, _ => 0)) == 0
  {
    if n > 1 {
      WordsOfZeros(n - 2);
      assert seq(n, _ => 0)[2..] == seq(n - 2, _ => 0);
    }
  }

  /** The example in section 3 of RFC 1071: its sum is dd f2, so the checksum is 22 0d. */
  lemma KnownSum()
    ensures Sum([0x00, 0x01, 0xf2, 0x03, 0xf4, 0xf5, 0xf6, 0xf7]) == Word(0x22, 0x0d)
  {
    var d: seq<Byte> := [0x00, 0x01, 0xf2, 0x03, 0xf4, 0xf5, 0xf6, 0xf7];
    assert d[2..][2..] == d[4..] && d[4..][2..] == d[6..] && d[6..][2..] == [];
  }

  // ----- Pieces --------------------------------------------------------------------------------

  lemma {:induction false} WordsAppend(a: seq<Byte>, b: seq<Byte>)
    requires |a| % 2 == 0
    ensures Words(a + b) == Words(a) + Words(b)
  {
    if a == [] {
      assert a + b == b;
    } else {
      WordsAppend(a[2..], b);
      assert (a + b)[2..] == a[2..] + b;
    }
  }

  /** The checksum over several pieces, one call of `internet_checksum_iterate` after the other. */
  function Chain(checksum: U16, pieces: seq<seq<Byte>>): U16
  {
    if pieces == [] then checksum
    else Oc(Chain(checksum, pieces[..|pieces| - 1]) + Words(pieces[|pieces| - 1]))
  }

  function Concat(pieces: seq<seq<Byte>>): seq<Byte>
  {
    if pieces == [] then [] else Concat(pieces[..|pieces| - 1]) + pieces[|pieces| - 1]
  }

  function Total(pieces: seq<seq<Byte>>): nat
  {
    if pieces == [] then 0 else Total(pieces[..|pieces| - 1]) + Words(pieces[|pieces| - 1])
  }

  predicate Even(pieces: seq<seq<Byte>>)
  {
    forall p :: p in pieces ==> |p| % 2 == 0
  }

  lemma {:induction false} ChainTotal(checksum: U16, pieces: seq<seq<Byte>>)
    ensures Chain(checksum, pieces) == Oc(checksum + Total(pieces))
  {
    if pieces == [] {
      OcUnique(checksum, checksum);
    } else {
      var front, last := pieces[..|pieces| - 1], pieces[|pieces| - 1];
      ChainTotal(checksum, front);
      OcAdd(checksum + Total(front), Words(last));
    }
  }

  lemma NoWords()
    ensures Words([]) == 0
  {
  }

  lemma {:induction false} ConcatTotal(pieces: seq<seq<Byte>>)
    requires Even(pieces)
    ensures |Concat(pieces)| % 2 == 0 && Words(Concat(pieces)) == Total(pieces)
  {
    hide Words;
    if pieces == [] {
      NoWords();
    } else {
      var front, last := pieces[..|pieces| - 1], pieces[|pieces| - 1];
      EvenFront(pieces);
      hide Even;
      ConcatTotal(front);
      WordsAppend(Concat(front), last);
    }
  }

  lemma EvenFront(pieces: seq<seq<Byte>>)
    requires Even(pieces) && pieces != []
    ensures Even(pieces[..|pieces| - 1]) && |pieces[|pieces| - 1]| % 2 == 0
  {
    assert pieces[|pieces| - 1] in pieces;
  }

  lemma {:induction false} TotalAppend(p: seq<seq<Byte>>, q: seq<seq<Byte>>)
    ensures Total(p + q) == Total(p) + Total(q)
  {
    if q == [] {
      assert p + q == p;
    } else {
      TotalAppend(p, q[..|q| - 1]);
      assert (p + q)[..|p + q| - 1] == p + q[..|q| - 1];
    }
  }

  lemma TotalOne(x: seq<Byte>)
    ensures Total([x]) == Words(x)
  {
    assert Total([x][..0]) == 0;
  }

  lemma TotalRemove(pieces: seq<seq<Byte>>, i: nat)
    requires i < |pieces|
    ensures Total(pieces) == Words(pieces[i]) + Total(pieces[..i] + pieces[i + 1..])
    ensures multiset(pieces) == multiset{pieces[i]} + multiset(pieces[..i] + pieces[i + 1..])
  {
    hide Words, Total;
    var a, x, b := pieces[..i], pieces[i], pieces[i + 1..];
    assert pieces == a + ([x] + b);
    TotalAppend(a, [x] + b);
    TotalAppend([x], b);
    TotalAppend(a, b);
    TotalOne(x);
  }

  lemma {:induction false} TotalAnyOrder(p: seq<seq<Byte>>, q: seq<seq<Byte>>)
    requires multiset(p) == multiset(q)
    ensures Total(p) == Total(q)
    decreases |p|
  {
    if p != [] {
      var l := |p| - 1;
      assert p[l] in multiset(p);
      assert p[l] in q;
      var i :| 0 <= i < |q| && q[i] == p[l];
      TotalRemove(p, l);
      TotalRemove(q, i);
      assert p[..l] + p[l + 1..] == p[..l];
      var rest := q[..i] + q[i + 1..];
      assert multiset(p[..l]) == multiset(p) - multiset{p[l]};
      assert multiset(rest) == multiset(q) - multiset{p[l]};
      TotalAnyOrder(p[..l], rest);
    } else {
      assert |multiset(q)| == 0;
    }
  }

  /** Even pieces in any order, and then a last piece of any length, give the checksum of the whole. */
  lemma PiecesInAnyOrder(pieces: seq<seq<Byte>>, order: seq<seq<Byte>>, last: seq<Byte>)
    requires Even(pieces) && multiset(pieces) == multiset(order)
    ensures Chain(0, order + [last]) == Oc(Words(Concat(pieces) + last))
  {
    assert (order + [last])[..|order|] == order;
    ChainTotal(0, order);
    OcAdd(Total(order), Words(last));
    TotalAnyOrder(pieces, order);
    ConcatTotal(pieces);
    WordsAppend(Concat(pieces), last);
  }

  // ----- Byte order ----------------------------------------------------------------------------

  function SwapWords(data: seq<Byte>): (r: seq<Byte>)
    requires |data| % 2 == 0
    ensures |r| == |data|
  {
    if data == [] then [] else [data[1], data[0]] + SwapWords(data[2..])
  }

  function Swap(w: U16): U16 { w / 256 + 256 * (w % 256) }

  lemma {:induction false} SwappedWords(data: seq<Byte>)
    requires |data| % 2 == 0
    ensures Words(SwapWords(data)) % 65535 == 256 * Words(data) % 65535
    ensures Words(SwapWords(data)) == 0 <==> Words(data) == 0
  {
    if data != [] {
      var rest := data[2..];
      SwappedWords(rest);
      assert SwapWords(data)[2..] == SwapWords(rest);
      SwapStep(data[0], data[1], Words(rest), Words(SwapWords(rest)));
    }
  }

  lemma SwapStep(x: Byte, y: Byte, a: nat, b: nat)
    requires 256 * a % 65535 == b % 65535
    ensures 256 * (Word(x, y) + a) % 65535 == (Word(y, x) + b) % 65535
  {
    var q := (256 * a - b) / 65535;
    Congruent(256 * a, b);
    AddMultiple(Word(y, x) + b, y + q);
  }

  /** The machine's byte order does not matter: swapping the bytes of every word swaps those of the
      result. */
  lemma ByteOrder(data: seq<Byte>)
    requires |data| % 2 == 0
    ensures Oc(Words(SwapWords(data))) == Swap(Oc(Words(data)))
    ensures Sum(SwapWords(data)) == Swap(Sum(data))
  {
    hide Words, SwapWords, Oc;
    SwappedWords(data);
    SwapOc(Words(data));
    OcUnique(Words(SwapWords(data)), Swap(Oc(Words(data))));
    SwapComplement(Oc(Words(data)));
  }

  lemma SwapOc(n: nat)
    ensures Swap(Oc(n)) % 65535 == 256 * n % 65535
    ensures Swap(Oc(n)) == 0 <==> n == 0
  {
    var r := Oc(n);
    Congruent(n, r);
    var q := (n - r) / 65535;
    var h, l := r / 256, r % 256;
    assert Swap(r) == h + 256 * l;
    assert 256 * n == Swap(r) + 65535 * (h + 256 * q);
    AddMultiple(Swap(r), h + 256 * q);
  }

  lemma SwapComplement(r: U16)
    ensures Swap(65535 - r) == 65535 - Swap(r)
  {
    var h, l := r / 256, r % 256;
    assert 65535 - r == 256 * (255 - h) + (255 - l);
    assert (65535 - r) / 256 == 255 - h && (65535 - r) % 256 == 255 - l;
  }

  // ----- Verification --------------------------------------------------------------------------

  /** Data whose checksum comes out as zero. */
  predicate Verifies(data: seq<Byte>) { Sum(data) == 0 }

  /** `data` with the checksum `c` in the bytes `at` and `at + 1`. */
  function WithChecksum(data: seq<Byte>, at: nat, c: U16): seq<Byte>
    requires at + 2 <= |data|
  {
    data[..at] + [c % 256, c / 256] + data[at + 2..]
  }

  lemma WordsMiddle(head: seq<Byte>, lo: Byte, hi: Byte, tail: seq<Byte>)
    requires |head| % 2 == 0
    ensures Words(head + [lo, hi] + tail) == Words(head) + Word(lo, hi) + Words(tail)
  {
    WordsAppend(head + [lo, hi], tail);
    WordsAppend(head, [lo, hi]);
    assert [lo, hi][2..] == [];
  }

  lemma WordsWith(data: seq<Byte>, at: nat, c: U16)
    requires at + 2 <= |data| && at % 2 == 0
    ensures Words(WithChecksum(data, at, c)) == Words(data) - Word(data[at], data[at + 1]) + c
  {
    hide Words;
    WordsMiddle(data[..at], data[at], data[at + 1], data[at + 2..]);
    WordsMiddle(data[..at], c % 256, c / 256, data[at + 2..]);
    assert data == data[..at] + [data[at], data[at + 1]] + data[at + 2..];
  }

  lemma VerifiesIff(data: seq<Byte>)
    ensures Verifies(data) <==> Words(data) % 65535 == 0 && Words(data) > 0
  {
  }

  /** Data with a zero checksum field verifies with its checksum in it, and with no other value but
      the second representation of zero. */
  lemma ChecksumVerifies(data: seq<Byte>, at: nat, c: U16)
    requires at + 2 <= |data| && at % 2 == 0 && data[at] == data[at + 1] == 0
    ensures Verifies(WithChecksum(data, at, c)) <==> c == Sum(data) || (Sum(data) == 0 && c == 65535)
  {
    hide Words;
    WordsWith(data, at, c);
    VerifiesIff(WithChecksum(data, at, c));
    Complements(Words(data), c);
  }

  lemma Complements(n: nat, c: U16)
    ensures (n + c) % 65535 == 0 && n + c > 0 <==> c == Finalize(Oc(n)) || (Finalize(Oc(n)) == 0 && c == 65535)
  {
    var r := Oc(n);
    Congruent(n, r);
    AddMultiple(r + c, (n - r) / 65535);
  }

  /** A change of one word goes unnoticed exactly when it exchanges the two representations of zero. */
  lemma OneWordChanged(data: seq<Byte>, at: nat, w: U16)
    requires at + 2 <= |data| && at % 2 == 0 && Verifies(data) && w != Word(data[at], data[at + 1])
    ensures Verifies(WithChecksum(data, at, w)) <==>
              ({w, Word(data[at], data[at + 1])} == {0, 65535} && Words(WithChecksum(data, at, w)) > 0)
  {
    hide Words;
    WordsWith(data, at, w);
    VerifiesIff(data);
    VerifiesIff(WithChecksum(data, at, w));
    SameResidue(Words(data), w - Word(data[at], data[at + 1]));
  }

  lemma SameResidue(n: nat, d: int)
    requires n % 65535 == 0 && -65535 <= d <= 65535
    ensures (n + d) % 65535 == 0 <==> d == 0 || d == 65535 || d == -65535
  {
    AddMultiple(d, n / 65535);
  }

  // ----- Headers -------------------------------------------------------------------------------

  /** A 16-bit number in network byte order. */
  function Net16(n: U16): (s: seq<Byte>)
    ensures |s| == 2
  {
    [n / 256, n % 256]
  }

  /** The header that `ipv4_prepend_header` fills in, with a checksum of zero. */
  function IpHeader(src: seq<Byte>, dest: seq<Byte>, proto: Byte, length: U16): (s: seq<Byte>)
    requires |src| == |dest| == 4
    ensures |s| == 20 && s[10] == s[11] == 0
  {
    [0x45, 0] + Net16(length) + [0, 0] + [0, 0] + [64, proto] + [0, 0] + src + dest
  }

  lemma IpHeaderBytes(src: seq<Byte>, dest: seq<Byte>, proto: Byte, length: U16, c: U16)
    requires |src| == |dest| == 4
    ensures var h := WithChecksum(IpHeader(src, dest, proto, length), 10, c);
            && |h| == 20 && h[0] == 0x45 && h[1] == h[4] == h[5] == h[6] == h[7] == 0
            && h[2] == length / 256 && h[3] == length % 256 && h[8] == 64 && h[9] == proto
            && h[12..16] == src && h[16..20] == dest
  {
    var h := WithChecksum(IpHeader(src, dest, proto, length), 10, c);
    assert h[12..] == src + dest;
    assert h[12..16] == h[12..][..4] && h[16..20] == h[12..][4..];
  }

  /** `ipv4_prepend_header`: the header for `payload` bytes; `room` tells whether the send buffer has room
      for it. Its own check never fails; packets that are too long fail an assertion. */
  method PrependHeader(src: seq<Byte>, dest: seq<Byte>, proto: Byte, payload: nat, room: bool)
    returns (r: Result<seq<Byte>>)
    requires |src| == |dest| == 4
    ensures if 20 + payload > 65535 then r == Crashed else if room then r.Ok? else r == Err(ENOMEM)
    ensures r.Ok? ==>
              var hdr := IpHeader(src, dest, proto, 20 + payload);
              Verifies(r.value) && r.value == WithChecksum(hdr, 10, Sum(hdr))
    ensures r.Ok? ==>
              && |r.value| == 20 && r.value[0] == 0x45
              && r.value[2] == (20 + payload) / 256 && r.value[3] == (20 + payload) % 256
              && r.value[1] == r.value[4] == r.value[5] == r.value[6] == r.value[7] == 0
              && r.value[8] == 64 && r.value[9] == proto
              && r.value[12..16] == src && r.value[16..20] == dest
  {
    if 20 + payload > 65535 {
      return Crashed;
    }
    var hdr := IpHeader(src, dest, proto, 20 + payload);
    var checksum := InternetChecksum(hdr);
    ChecksumVerifies(hdr, 10, checksum);
    hdr := WithChecksum(hdr, 10, checksum);
    var check := InternetChecksum(hdr);
    if check != 0 {
      return Crashed;
    }
    if !room {
      return Err(ENOMEM);
    }
    IpHeaderBytes(src, dest, proto, 20 + payload, checksum);
    return Ok(hdr);
  }

  /** The pseudo header over which TCP sums besides its segment. */
  function PseudoHeader(src: seq<Byte>, dest: seq<Byte>, length: U16): (s: seq<Byte>)
    requires |src| == |dest| == 4
    ensures |s| == 12
  {
    src + dest + [0, 6] + Net16(length)
  }

  /** It holds the addresses, the number of TCP and the length. */
  lemma PseudoHeaderBytes(src: seq<Byte>, dest: seq<Byte>, length: U16)
    requires |src| == |dest| == 4
    ensures var s := PseudoHeader(src, dest, length);
            && |s| == 12 && s[0..4] == src && s[4..8] == dest
            && s[8] == 0 && s[9] == 6 && s[10] == length / 256 && s[11] == length % 256
  {
  }

  /** The part of `tcp_send_segment_raw` that computes the checksum, over the header `hdr` with a zero
      in its checksum field, then the pseudo header, then the payload. */
  method TcpChecksum(src: seq<Byte>, dest: seq<Byte>, hdr: seq<Byte>, payload: seq<Byte>) returns (c: U16)
    requires |src| == |dest| == 4 && |hdr| == 20 && hdr[16] == hdr[17] == 0 && 20 + |payload| <= 65535
    ensures c == Finalize(Chain(0, [hdr, PseudoHeader(src, dest, 20 + |payload|), payload]))
  {
    hide Words, Oc;
    var pseudo := PseudoHeader(src, dest, 20 + |payload|);
    NoWrapUpTo128K(0, hdr);
    var sum := Iterate(0, hdr);
    NoWrapUpTo128K(sum, pseudo);
    sum := Iterate(sum, pseudo);
    NoWrapUpTo128K(sum, payload);
    sum := Iterate(sum, payload);
    ChainOfThree(hdr, pseudo, payload);
    c := Finalize(sum);
  }

  lemma ChainOfThree(a: seq<Byte>, b: seq<Byte>, c: seq<Byte>)
    ensures Chain(0, [a, b, c]) == Oc(Oc(Oc(Words(a)) + Words(b)) + Words(c))
    ensures Chain(0, [b, c]) == Oc(Oc(Words(b)) + Words(c))
  {
    hide Words, Chain, Oc;
    NoPieces();
    ChainMore([a, b], c);
    ChainMore([a], b);
    ChainMore([], a);
    ChainMore([b], c);
    ChainMore([], b);
    assert [a, b] + [c] == [a, b, c] && [a] + [b] == [a, b] && [] + [a] == [a] && [b] + [c] == [b, c] &&
        [] + [b] == [b];
  }

  lemma NoPieces()
    ensures Chain(0, []) == 0
  {
  }

  lemma ChainMore(pieces: seq<seq<Byte>>, last: seq<Byte>)
    ensures Chain(0, pieces + [last]) == Oc(Chain(0, pieces) + Words(last))
  {
    assert (pieces + [last])[..|pieces|] == pieces;
  }

  /** `tcp_checksum_is_ok` */
  method TcpChecksumIsOk(pseudo: seq<Byte>, segment: seq<Byte>) returns (ok: bool)
    requires |pseudo| == 12 && |segment| <= 65535
    ensures ok <==> Finalize(Chain(0, [pseudo, segment])) == 0
  {
    NoWrapUpTo128K(0, pseudo);
    var sum := Iterate(0, pseudo);
    NoWrapUpTo128K(sum, segment);
    sum := Iterate(sum, segment);
    ChainOfThree([], pseudo, segment);
    ok := Finalize(sum) == 0;
  }

  /** Every segment that is sent passes the receiver's test, though the pieces were summed up in
      another order. */
  lemma SegmentsVerify(src: seq<Byte>, dest: seq<Byte>, hdr: seq<Byte>, payload: seq<Byte>)
    requires |src| == |dest| == 4 && |hdr| == 20 && hdr[16] == hdr[17] == 0 && 20 + |payload| <= 65535
    ensures var pseudo := PseudoHeader(src, dest, 20 + |payload|);
            var c := Finalize(Chain(0, [hdr, pseudo, payload]));
            Finalize(Chain(0, [pseudo, WithChecksum(hdr, 16, c) + payload])) == 0
  {
    hide Words, PseudoHeader, WithChecksum, Oc, Finalize, Chain;
    var pseudo := PseudoHeader(src, dest, 20 + |payload|);
    var c := Finalize(Chain(0, [hdr, pseudo, payload]));
    var filled, n := WithChecksum(hdr, 16, c), Words(hdr) + Words(pseudo) + Words(payload);
    SentSum(hdr, pseudo, payload);
    assert c == Finalize(Oc(n));
    ChecksumLength(hdr, 16, c);
    ReceivedSum(pseudo, filled, payload);
    WordsFilled(hdr, c);
    ComplementSum(n, c, Words(pseudo), Words(filled), Words(payload));
  }

  lemma SentSum(a: seq<Byte>, b: seq<Byte>, c: seq<Byte>)
    ensures Chain(0, [a, b, c]) == Oc(Words(a) + Words(b) + Words(c))
  {
    hide Words, Oc, Chain;
    ChainOfThree(a, b, c);
    OcAdd(Words(a), Words(b));
    OcAdd(Words(a) + Words(b), Words(c));
  }

  lemma ReceivedSum(a: seq<Byte>, b: seq<Byte>, c: seq<Byte>)
    requires |b| % 2 == 0
    ensures Chain(0, [a, b + c]) == Oc(Words(a) + Words(b) + Words(c))
  {
    hide Words, Oc, Chain;
    ChainOfThree(a, a, b + c);
    WordsAppend(b, c);
    SumOfTwo(Words(a), Words(b + c), Words(b), Words(c));
  }

  lemma SumOfTwo(a: nat, bc: nat, b: nat, c: nat)
    requires bc == b + c
    ensures Oc(Oc(a) + bc) == Oc(a + b + c)
  {
    OcAdd(a, bc);
  }

  lemma ChecksumLength(data: seq<Byte>, at: nat, c: U16)
    requires at + 2 <= |data|
    ensures |WithChecksum(data, at, c)| == |data|
  {
  }

  lemma WordsFilled(hdr: seq<Byte>, c: U16)
    requires |hdr| == 20 && hdr[16] == hdr[17] == 0
    ensures Words(WithChecksum(hdr, 16, c)) == Words(hdr) + c
  {
    hide Words, WithChecksum;
    WordsWith(hdr, 16, c);
  }

  lemma ComplementSum(n: nat, c: U16, x: nat, y: nat, z: nat)
    requires c == Finalize(Oc(n)) && x + y + z == n + c
    ensures Finalize(Oc(x + y + z)) == 0
  {
    Complements(n, c);
  }
}
