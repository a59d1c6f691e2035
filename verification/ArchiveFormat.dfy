/** The archive format that scripts/archive.py writes and src/archive.c reads
    (include/tx/archive.h), and the text encoding of its paths. */
module ArchiveFormat {
  import opened Arith
  import opened Common

  const HEADER_SIZE := 24
  const INDEX_SIZE := 36
  const MAGIC_STRING: seq<Byte> := [84, 65, 84, 73, 88, 95, 65, 82] // "TATIX_AR"
  const TWO63: nat := 0x8000_0000_0000_0000
  const TWO64: nat := 0x1_0000_0000_0000_0000

  // ----- Little-endian numbers -----------------------------------------------------------------

  function Pow256(k: nat): (p: nat)
    ensures p > 0
  {
    if k == 0 then 1 else 256 * Pow256(k - 1)
  }

  function LE(n: nat, k: nat): (s: seq<Byte>)
    ensures |s| == k
  {
    if k == 0 then [] else [n % 256] + LE(n / 256, k - 1)
  }

  function UnLE(s: seq<Byte>): nat
  {
    if s == [] then 0 else s[0] + 256 * UnLE(s[1..])
  }

  lemma {:induction false} DecodeEncode(n: nat, k: nat)
    requires n < Pow256(k)
    ensures UnLE(LE(n, k)) == n
  {
    if k > 0 {
      DecodeEncode(n / 256, k - 1);
      assert LE(n, k)[1..] == LE(n / 256, k - 1);
    }
  }

  /** The low byte comes first. */
  lemma {:induction false} ByteOnDisk(n: nat, k: nat, i: nat)
    requires i < k
    ensures LE(n, k)[i] == n / Pow256(i) % 256
  {
    if i > 0 {
      ByteOnDisk(n / 256, k - 1, i - 1);
      DivDiv(n, 256, Pow256(i - 1));
    }
  }

  lemma Pow256Eight()
    ensures Pow256(8) == TWO64 && Pow256(4) == 0x1_0000_0000
  {
    assert Pow256(4) == 256 * (256 * (256 * (256 * Pow256(0))));
    assert Pow256(8) == 256 * (256 * (256 * (256 * Pow256(4))));
  }

  /** The value of a 64-bit field that is read as a signed number. */
  function Signed(n: nat): int { if n < TWO63 then n else n - TWO64 }

  /** Two's complement: the number in the signed range with the same residue. */
  lemma SignedMeans(n: nat, z: int)
    requires n < TWO64
    ensures z == Signed(n) <==> -0x8000_0000_0000_0000 <= z < 0x8000_0000_0000_0000 && (z - n) % TWO64 == 0
  {
    if (z - n) % TWO64 == 0 {
      assert z == n + TWO64 * ((z - n) / TWO64);
    }
  }

  // ----- The hash ------------------------------------------------------------------------------

  function Djb2(s: seq<Byte>): (h: nat)
    ensures h < TWO64
  {
    if s == [] then 5381 else (33 * Djb2(s[..|s| - 1]) + s[|s| - 1]) % TWO64
  }

  function Pow33(k: nat): nat
  {
    if k == 0 then 1 else 33 * Pow33(k - 1)
  }

  /** The bytes as digits of base 33, the first one in front. */
  function Weighted(s: seq<Byte>): nat
  {
    if s == [] then 0 else s[0] * Pow33(|s| - 1) + Weighted(s[1..])
  }

  lemma {:induction false} WeightedLast(s: seq<Byte>)
    requires s != []
    ensures Weighted(s) == 33 * Weighted(s[..|s| - 1]) + s[|s| - 1]
  {
    var n := |s| - 1;
    if n > 0 {
      var rest, front := s[1..], s[..n];
      WeightedLast(rest);
      assert rest[..n - 1] == front[1..];
      assert 33 * (s[0] * Pow33(n - 1)) == s[0] * Pow33(n);
    }
  }

  /** The hash in closed form, without the wrap-around at each step. */
  lemma {:induction false} HashIsWeighted(s: seq<Byte>)
    ensures Djb2(s) == (5381 * Pow33(|s|) + Weighted(s)) % 0x1_0000_0000_0000_0000
  {
    if s != [] {
      var front, x := s[..|s| - 1], 5381 * Pow33(|s| - 1) + Weighted(s[..|s| - 1]);
      HashIsWeighted(front);
      WeightedLast(s);
      assert 5381 * Pow33(|s|) == 33 * (5381 * Pow33(|s| - 1));
      HashWrap(x, s[|s| - 1]);
    }
  }

  lemma HashWrap(x: nat, b: Byte)
    ensures (33 * (x % TWO64) + b) % TWO64 == (33 * x + b) % TWO64
  {
    assert 33 * x + b == 33 * (x % TWO64) + b + TWO64 * (33 * (x / TWO64));
  }

  // ----- Text ----------------------------------------------------------------------------------

  function Utf8Char(c: char): seq<Byte>
  {
    var n := c as int;
    if n < 0x80 then [n]
    else if n < 0x800 then [0xC0 + n / 0x40, 0x80 + n % 0x40]
    else if n < 0x1_0000 then [0xE0 + n / 0x1000, 0x80 + n / 0x40 % 0x40, 0x80 + n % 0x40]
    else [0xF0 + n / 0x4_0000 % 8, 0x80 + n / 0x1000 % 0x40, 0x80 + n / 0x40 % 0x40, 0x80 + n % 0x40]
  }

  function Encode(s: string): seq<Byte>
  {
    if s == [] then [] else Utf8Char(s[0]) + Encode(s[1..])
  }

  predicate Ascii(s: string) { forall i :: 0 <= i < |s| ==> s[i] as int < 0x80 }

  /** The number of characters, which the writer takes for the length of a path, is its number of
      bytes exactly for ASCII paths. */
  lemma {:induction false} LengthsAgree(s: string)
    ensures |Encode(s)| >= |s|
    ensures |Encode(s)| == |s| <==> Ascii(s)
  {
    if s != [] {
      LengthsAgree(s[1..]);
      AsciiHeadTail(s);
    }
  }

  lemma AsciiHeadTail(s: string)
    requires s != []
    ensures Ascii(s) <==> s[0] as int < 0x80 && Ascii(s[1..])
  {
    if s[0] as int < 0x80 && Ascii(s[1..]) {
      forall i | 0 <= i < |s|
        ensures s[i] as int < 0x80
      {
        if i > 0 {
          assert s[i] == s[1..][i - 1];
        }
      }
    }
  }

  predicate Continues(b: Byte) { 0x80 <= b < 0xC0 }

  function Above(b: Byte, base: nat): int { b - base }

  /** The first character of `s` and the number of its bytes. Overlong forms, surrogates and numbers
      beyond 0x10FFFF are errors (section 3 of RFC 3629). */
  function DecodeChar(s: seq<Byte>): (r: Option<(char, nat)>)
    requires s != []
    ensures r.Some? ==> 0 < r.value.1 <= |s|
  {
    var b := s[0];
    if b < 0x80 then Some((b as char, 1))
    else if 0xC2 <= b < 0xE0 && |s| >= 2 && Continues(s[1]) then
      Some(((Above(b, 0xC0) * 0x40 + Above(s[1], 0x80)) as char, 2))
    else if 0xE0 <= b < 0xF0 && |s| >= 3 && Continues(s[1]) && Continues(s[2]) then
      var n := Above(b, 0xE0) * 0x1000 + Above(s[1], 0x80) * 0x40 + Above(s[2], 0x80);
      if 0x800 <= n && !(0xD800 <= n < 0xE000) then Some((n as char, 3)) else None
    else if 0xF0 <= b < 0xF5 && |s| >= 4 && Continues(s[1]) && Continues(s[2]) && Continues(s[3]) then
      var n := Above(b, 0xF0) * 0x4_0000 + Above(s[1], 0x80) * 0x1000 + Above(s[2], 0x80) * 0x40 +
               Above(s[3], 0x80);
      if 0x1_0000 <= n < 0x11_0000 then Some((n as char, 4)) else None
    else None
  }

  function Decode(s: seq<Byte>): Option<string>
  {
    if s == [] then Some([])
    else match DecodeChar(s)
         case None => None
         case Some((c, n)) =>
           match Decode(s[n..])
           case None => None
           case Some(rest) => Some([c] + rest)
  }

  lemma CharDecodes(c: char, rest: seq<Byte>)
    ensures DecodeChar(Utf8Char(c) + rest) == Some((c, |Utf8Char(c)|))
  {
    var n := c as int;
    if n >= 0x1_0000 {
      FourBytes(c, rest);
    } else if n >= 0x800 {
      ThreeBytes(c, rest);
    } else if n >= 0x80 {
      TwoBytes(c, rest);
    }
  }

  lemma TwoBytes(c: char, rest: seq<Byte>)
    requires 0x80 <= c as int < 0x800
    ensures DecodeChar(Utf8Char(c) + rest) == Some((c, 2)) && |Utf8Char(c)| == 2
  {
    var s := Utf8Char(c) + rest;
    assert s[1] == Utf8Char(c)[1];
  }

  lemma ThreeBytes(c: char, rest: seq<Byte>)
    requires 0x800 <= c as int < 0x1_0000
    ensures DecodeChar(Utf8Char(c) + rest) == Some((c, 3)) && |Utf8Char(c)| == 3
  {
    var s := Utf8Char(c) + rest;
    assert s[1] == Utf8Char(c)[1] && s[2] == Utf8Char(c)[2];
    Digits(c as int);
  }

  lemma FourBytes(c: char, rest: seq<Byte>)
    requires 0x1_0000 <= c as int
    ensures DecodeChar(Utf8Char(c) + rest) == Some((c, 4)) && |Utf8Char(c)| == 4
  {
    var s := Utf8Char(c) + rest;
    assert s[1] == Utf8Char(c)[1] && s[2] == Utf8Char(c)[2] && s[3] == Utf8Char(c)[3];
    Digits(c as int);
  }

  /** The groups of six bits, and the rest above them. */
  lemma Digits(n: nat)
    ensures n == n / 0x40 * 0x40 + n % 0x40
    ensures n == n / 0x1000 * 0x1000 + n / 0x40 % 0x40 * 0x40 + n % 0x40
    ensures n == n / 0x4_0000 * 0x4_0000 + n / 0x1000 % 0x40 * 0x1000 + n / 0x40 % 0x40 * 0x40 + n % 0x40
  {
    DivDiv(n, 0x40, 0x40);
    DivDiv(n, 0x1000, 0x40);
    LastDigit(n);
    LastDigit(n / 0x40);
    LastDigit(n / 0x1000);
  }

  lemma LastDigit(n: nat)
    ensures n == n / 0x40 * 0x40 + n % 0x40
  {
  }

  /** Every text can be decoded again. */
  lemma {:induction false} DecodeEncodeText(s: string)
    ensures Decode(Encode(s)) == Some(s)
  {
    if s != [] {
      var first, rest := Utf8Char(s[0]), Encode(s[1..]);
      CharDecodes(s[0], rest);
      assert (first + rest)[|first|..] == rest;
      DecodeEncodeText(s[1..]);
      assert s == [s[0]] + s[1..];
    }
  }

  /** Nothing but encoded text is decoded. */
  lemma {:induction false} DecodedIsEncoded(s: seq<Byte>)
    ensures Decode(s).Some? ==> Encode(Decode(s).value) == s
    decreases |s|
  {
    if s != [] && Decode(s).Some? {
      var (c, n) := DecodeChar(s).value;
      CharEncodes(s);
      DecodedIsEncoded(s[n..]);
      var rest := Decode(s[n..]).value;
      assert Decode(s).value == [c] + rest && ([c] + rest)[1..] == rest;
      assert s[..n] + s[n..] == s;
    }
  }

  lemma CharEncodes(s: seq<Byte>)
    requires s != [] && DecodeChar(s).Some?
    ensures var (c, n) := DecodeChar(s).value; Utf8Char(c) == s[..n]
  {
    var (c, n) := DecodeChar(s).value;
    if n == 4 {
      hide Utf8Char;
      FourBytesBack(c, Above(s[0], 0xF0), Above(s[1], 0x80), Above(s[2], 0x80), Above(s[3], 0x80));
    } else if n == 3 {
      hide Utf8Char;
      ThreeBytesBack(c, Above(s[0], 0xE0), Above(s[1], 0x80), Above(s[2], 0x80));
    }
  }

  lemma FourBytesBack(ch: char, a: nat, b: nat, c: nat, d: nat)
    requires ch as int == a * 0x4_0000 + b * 0x1000 + c * 0x40 + d >= 0x1_0000
    requires a < 5 && b < 0x40 && c < 0x40 && d < 0x40
    ensures Utf8Char(ch) == [0xF0 + a, 0x80 + b, 0x80 + c, 0x80 + d]
  {
    SixBits(ch as int, a, b, c, d);
  }

  lemma ThreeBytesBack(ch: char, b: nat, c: nat, d: nat)
    requires 0x800 <= ch as int == b * 0x1000 + c * 0x40 + d < 0x1_0000
    requires b < 0x10 && c < 0x40 && d < 0x40
    ensures Utf8Char(ch) == [0xE0 + b, 0x80 + c, 0x80 + d]
  {
    SixBits(ch as int, 0, b, c, d);
  }

  lemma SixBits(n: int, a: int, b: int, c: int, d: int)
    requires 0 <= a && 0 <= b < 0x40 && 0 <= c < 0x40 && 0 <= d < 0x40
    requires n == a * 0x4_0000 + b * 0x1000 + c * 0x40 + d
    ensures n / 0x4_0000 == a && n / 0x1000 % 0x40 == b && n / 0x40 % 0x40 == c && n % 0x40 == d
  {
    assert n / 0x40 == a * 0x1000 + b * 0x40 + c;
    assert n / 0x1000 == a * 0x40 + b;
  }

  // ----- The archive ---------------------------------------------------------------------------

  datatype FileInfo = FileInfo(path: string, size: nat, data: seq<Byte>)

  datatype Entry = Entry(hash: nat, offset: nat, size: nat, pathLength: nat)

  /** The path as the archive holds it. */
  function Rooted(f: FileInfo): string { "/" + f.path }

  function Body(f: FileInfo): seq<Byte> { Encode(Rooted(f)) + f.data }

  /** The size of a body, as the writer counts it. */
  function Counted(f: FileInfo): nat { |Rooted(f)| + f.size }

  function CountedAll(fs: seq<FileInfo>): nat
  {
    if fs == [] then 0 else CountedAll(fs[..|fs| - 1]) + Counted(fs[|fs| - 1])
  }

  function Total(fs: seq<FileInfo>): nat { HEADER_SIZE + |fs| * INDEX_SIZE + CountedAll(fs) }

  /** Where the `i`-th index entry starts. */
  function EntryOffset(i: nat): nat { HEADER_SIZE + INDEX_SIZE * i }

  function EntryBytes(e: Entry): (s: seq<Byte>)
    ensures |s| == INDEX_SIZE
  {
    LE(e.hash, 8) + LE(e.offset, 8) + LE(e.size, 8) + LE(e.pathLength, 8) + LE(0, 4)
  }

  /** The entry for the last of `fs`, in an archive with `n` files. */
  function EntryFor(fs: seq<FileInfo>, n: nat): Entry
    requires fs != []
  {
    var f := fs[|fs| - 1];
    Entry(Djb2(Body(f)), HEADER_SIZE + n * INDEX_SIZE + CountedAll(fs[..|fs| - 1]), f.size + |Rooted(f)|, |Rooted(f)|)
  }

  function Index(fs: seq<FileInfo>, n: nat): (s: seq<Byte>)
    ensures |s| == |fs| * INDEX_SIZE
  {
    if fs == [] then [] else Index(fs[..|fs| - 1], n) + EntryBytes(EntryFor(fs, n))
  }

  function Bodies(fs: seq<FileInfo>): seq<Byte>
  {
    if fs == [] then [] else Bodies(fs[..|fs| - 1]) + Body(fs[|fs| - 1])
  }

  function Header(fs: seq<FileInfo>): (s: seq<Byte>)
    ensures |s| == HEADER_SIZE
  {
    MAGIC_STRING + LE(|fs|, 8) + LE(Total(fs), 8)
  }

  function Archive(fs: seq<FileInfo>): seq<Byte>
  {
    Header(fs) + Index(fs, |fs|) + Bodies(fs)
  }

  // ----- Layout --------------------------------------------------------------------------------

  /** Files whose sizes are right and whose paths are ASCII. */
  predicate Regular(fs: seq<FileInfo>)
  {
    forall f :: f in fs ==> f.size == |f.data| && Ascii(f.path)
  }

  lemma BodySize(f: FileInfo)
    requires f.size == |f.data| && Ascii(f.path)
    ensures |Encode(Rooted(f))| == |Rooted(f)| && |Body(f)| == Counted(f) && Ascii(Rooted(f))
  {
    LengthsAgree(Rooted(f));
  }

  lemma Front(fs: seq<FileInfo>, i: nat)
    requires 0 < i <= |fs|
    ensures fs[..i][..i - 1] == fs[..i - 1] && fs[..i][i - 1] == fs[i - 1]
  {
  }

  lemma {:induction false} BodiesAt(fs: seq<FileInfo>, i: nat)
    requires Regular(fs) && i < |fs|
    ensures CountedAll(fs[..i]) + |Body(fs[i])| <= |Bodies(fs)| == CountedAll(fs)
    ensures Bodies(fs)[CountedAll(fs[..i])..CountedAll(fs[..i]) + |Body(fs[i])|] == Body(fs[i])
  {
    hide Body, Counted;
    var front, last := fs[..|fs| - 1], fs[|fs| - 1];
    BodySize(last);
    if i < |fs| - 1 {
      BodiesAt(front, i);
      assert front[..i] == fs[..i] && front[i] == fs[i];
      Middle([], Bodies(front), Body(last), CountedAll(fs[..i]), |Body(fs[i])|);
      assert [] + Bodies(front) + Body(last) == Bodies(fs);
    } else {
      if front != [] {
        BodiesAt(front, 0);
      }
      assert Bodies(fs) == Bodies(front) + Body(last);
    }
  }

  lemma {:induction false} IndexAt(fs: seq<FileInfo>, n: nat, i: nat)
    requires i < |fs|
    ensures Index(fs, n)[INDEX_SIZE * i..INDEX_SIZE * (i + 1)] == EntryBytes(EntryFor(fs[..i + 1], n))
  {
    hide EntryBytes, EntryFor;
    var front := fs[..|fs| - 1];
    if i < |fs| - 1 {
      IndexAt(front, n, i);
      assert front[..i + 1] == fs[..i + 1];
    } else {
      assert fs[..i + 1] == fs;
    }
  }

  /** The 8 bytes at `at`, as an unsigned number. */
  function U64At(a: seq<Byte>, at: nat): nat
    requires at + 8 <= |a|
  {
    UnLE(a[at..at + 8])
  }

  lemma FieldAt(a: seq<Byte>, at: nat, n: nat)
    requires at + 8 <= |a| && n < TWO64 && a[at..at + 8] == LE(n, 8)
    ensures U64At(a, at) == n
  {
    Pow256Eight();
    DecodeEncode(n, 8);
  }

  lemma Slices(p: seq<Byte>, q: seq<Byte>, r: seq<Byte>, s: seq<Byte>, t: seq<Byte>)
    requires |p| == |q| == |r| == |s| == 8
    ensures var all := p + q + r + s + t;
            all[0..8] == p && all[8..16] == q && all[16..24] == r && all[24..32] == s
  {
  }

  lemma EntrySlices(e: Entry)
    ensures var s := EntryBytes(e);
            && s[0..8] == LE(e.hash, 8) && s[8..16] == LE(e.offset, 8)
            && s[16..24] == LE(e.size, 8) && s[24..32] == LE(e.pathLength, 8)
  {
    Slices(LE(e.hash, 8), LE(e.offset, 8), LE(e.size, 8), LE(e.pathLength, 8), LE(0, 4));
  }

  lemma SliceOfSlice(a: seq<Byte>, at: nat, n: nat, i: nat, j: nat)
    requires at + n <= |a| && i <= j <= n
    ensures a[at..at + n][i..j] == a[at + i..at + j]
  {
    var s := a[at..at + n];
    forall k | 0 <= k < j - i
      ensures s[i..j][k] == a[at + i..at + j][k]
    {
      assert s[i + k] == a[at + i + k];
    }
  }

  lemma EntryFields(a: seq<Byte>, at: nat, e: Entry)
    requires at + INDEX_SIZE <= |a| && a[at..at + INDEX_SIZE] == EntryBytes(e)
    requires e.hash < TWO64 && e.offset < TWO63 && e.size < TWO63 && e.pathLength < TWO63
    ensures U64At(a, at) == e.hash && U64At(a, at + 8) == e.offset
    ensures U64At(a, at + 16) == e.size && U64At(a, at + 24) == e.pathLength
  {
    hide EntryBytes;
    var s := a[at..at + INDEX_SIZE];
    EntrySlices(e);
    SliceOfSlice(a, at, INDEX_SIZE, 0, 8);
    SliceOfSlice(a, at, INDEX_SIZE, 8, 16);
    SliceOfSlice(a, at, INDEX_SIZE, 16, 24);
    SliceOfSlice(a, at, INDEX_SIZE, 24, 32);
    FieldAt(a, at, e.hash);
    FieldAt(a, at + 8, e.offset);
    FieldAt(a, at + 16, e.size);
    FieldAt(a, at + 24, e.pathLength);
  }

  lemma HeaderFields(fs: seq<FileInfo>)
    requires Regular(fs) && Total(fs) < TWO63
    ensures var a := Archive(fs);
            && |a| == Total(fs) >= HEADER_SIZE && a[..8] == MAGIC_STRING
            && U64At(a, 8) == |fs| < TWO63 && U64At(a, 16) == |a| < TWO63
  {
    hide LE, UnLE, U64At;
    var a, h := Archive(fs), Header(fs);
    if fs != [] {
      BodiesAt(fs, 0);
    }
    assert a[..HEADER_SIZE] == h;
    assert a[..8] == h[..8] == MAGIC_STRING;
    assert a[8..16] == h[8..16] == LE(|fs|, 8);
    assert a[16..24] == h[16..24] == LE(Total(fs), 8);
    FieldAt(a, 8, |fs|);
    FieldAt(a, 16, Total(fs));
  }

  /** Characters of one to four bytes. */
  lemma KnownCharacters()
    ensures Utf8Char('/') == [0x2F] && Utf8Char('\U{00E9}') == [0xC3, 0xA9]
    ensures Utf8Char('\U{20AC}') == [0xE2, 0x82, 0xAC] && Utf8Char('\U{10348}') == [0xF0, 0x90, 0x8D, 0x88]
  {
  }

  /** Every entry of the index leads to the path and the data of its file. */
  lemma EntryAt(fs: seq<FileInfo>, i: nat)
    requires Regular(fs) && Total(fs) < TWO63 && i < |fs|
    ensures var a, at, o, f := Archive(fs), HEADER_SIZE + INDEX_SIZE * i, EntryFor(fs[..i + 1], |fs|).offset, fs[i];
            && at + INDEX_SIZE <= HEADER_SIZE + INDEX_SIZE * |fs| <= |a| && o + |Body(f)| <= |a|
            && U64At(a, at) == Djb2(Body(f)) && U64At(a, at + 8) == o
            && U64At(a, at + 16) == |Body(f)| && U64At(a, at + 24) == |Encode(Rooted(f))|
            && a[o..o + |Body(f)|] == Body(f)
  {
    hide LE, UnLE, U64At, Bodies, Index, EntryBytes, Body, Rooted, Encode, Header, Djb2, CountedAll;
    var a, f := Archive(fs), fs[i];
    var index, bodies, start, n := Index(fs, |fs|), Bodies(fs), CountedAll(fs[..i]), |Body(f)|;
    BodySize(f);
    BodiesAt(fs, i);
    IndexAt(fs, |fs|, i);
    Front(fs, i + 1);
    Middle(Header(fs), index, bodies, INDEX_SIZE * i, INDEX_SIZE);
    EntryFields(a, HEADER_SIZE + INDEX_SIZE * i, EntryFor(fs[..i + 1], |fs|));
    Final(Header(fs) + index, bodies, start, n);
  }

  lemma Middle(h: seq<Byte>, s: seq<Byte>, t: seq<Byte>, from: nat, n: nat)
    requires from + n <= |s|
    ensures (h + s + t)[|h| + from..|h| + from + n] == s[from..from + n]
  {
  }

  lemma Final(h: seq<Byte>, t: seq<Byte>, from: nat, n: nat)
    requires from + n <= |t|
    ensures (h + t)[|h| + from..|h| + from + n] == t[from..from + n]
  {
  }

  // ----- A path beyond ASCII -------------------------------------------------------------------

  /** A file whose path has one character of two bytes. The writer counts characters. */
  const ACCENTED := FileInfo(['\U{00E9}'], 0, [])

  /** Its archive: the entry spans two of the three bytes whose hash it has. */
  lemma AccentedArchive()
    ensures var path: seq<Byte> := [47, 195, 169];
            Archive([ACCENTED]) == MAGIC_STRING + LE(1, 8) + LE(62, 8) + EntryBytes(Entry(Djb2(path), 60, 2, 2)) + path
  {
    hide LE, EntryBytes, Djb2, Encode, Rooted;
    var fs, path: seq<Byte> := [ACCENTED], [47, 195, 169];
    EncodeAccented();
    assert Body(ACCENTED) == path;
    assert fs[..0] == [] && Total(fs) == 62 && EntryFor(fs, 1) == Entry(Djb2(path), 60, 2, 2);
    assert Index(fs, 1) == EntryBytes(Entry(Djb2(path), 60, 2, 2)) && Bodies(fs) == path;
  }

  lemma EncodeAccented()
    ensures Encode(['/', '\U{00E9}']) == [47, 195, 169] && Rooted(ACCENTED) == ['/', '\U{00E9}']
  {
    assert ['/', '\U{00E9}'][1..] == ['\U{00E9}'];
    assert ['\U{00E9}'][1..] == [];
  }

  lemma HashesDiffer()
    ensures Djb2([47, 195]) != Djb2([47, 195, 169])
  {
    assert [47, 195, 169][..2] == [47, 195] && [47, 195][..1] == [47] && [47][..0] == [];
    assert Djb2([]) == 5381;
    assert Djb2([47]) == 177620;
    assert Djb2([47, 195]) == 5861655;
    assert Djb2([47, 195, 169]) == 193434784;
  }

  lemma AccentedFields()
    ensures var a := Archive([ACCENTED]);
            && |a| == 63 && a[..8] == MAGIC_STRING && U64At(a, 8) == 1 && U64At(a, 16) == 62
            && U64At(a, 24) == Djb2([47, 195, 169]) && U64At(a, 32) == 60 && U64At(a, 40) == U64At(a, 48) == 2
            && a[60..62] == [47, 195]
  {
    hide LE, UnLE, U64At, EntryBytes, Djb2, Archive;
    var a, path: seq<Byte> := Archive([ACCENTED]), [47, 195, 169];
    AccentedArchive();
    assert a[..8] == MAGIC_STRING && a[8..16] == LE(1, 8) && a[16..24] == LE(62, 8);
    FieldAt(a, 8, 1);
    FieldAt(a, 16, 62);
    var e := Entry(Djb2(path), 60, 2, 2);
    assert a[24..60] == EntryBytes(e);
    EntryFields(a, 24, e);
  }
}
