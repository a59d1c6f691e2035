/** src/archive.c: unpacking an archive into the RAM file system, and what it leaves there when the
    archive was written by scripts/archive.py. */
module ArchiveModel {
  import opened Common
  import opened Paths
  import opened RamFiles
  import opened Pools
  import opened FsTree
  import opened FsSpec
  import opened RamFsModel
  import opened ArchiveFormat

  // ----- The files as a tree -------------------------------------------------------------------

  function PathAt(f: FileInfo): Path { Split(Encode(Rooted(f))) }

  function PathsOf(fs: seq<FileInfo>): (cs: seq<Path>)
    ensures |cs| == |fs|
  {
    if fs == [] then [] else PathsOf(fs[..|fs| - 1]) + [PathAt(fs[|fs| - 1])]
  }

  /** The root, and every file with the directories above it. */
  function TreeOf(cs: seq<Path>): Flat
  {
    if cs == [] then map[[] := true]
    else
      var c := cs[|cs| - 1];
      Grow(TreeOf(cs[..|cs| - 1]), [], c, false, |c|)
  }

  /** What arrives of `data`: the first buffer of a file holds 4096 bytes, and line 63 of src/archive.c does
      not check whether a larger one could be allocated. */
  function Arriving(data: seq<Byte>, memory: bool): seq<Byte>
  {
    if |data| <= DEFAULT_FILE_SIZE || memory then data else []
  }

  /** The contents after extraction, where `i in larger` tells whether there is memory for a larger buffer
      for the `i`-th file. */
  function ContentsOf(fs: seq<FileInfo>, larger: set<nat>): map<Path, seq<Byte>>
  {
    if fs == [] then map[]
    else
      var n := |fs| - 1;
      ContentsOf(fs[..n], larger)[PathAt(fs[n]) := Arriving(fs[n].data, n in larger)]
  }

  /** No path is empty, or the same as or above another one. */
  ghost predicate NoneAbove(cs: seq<Path>)
  {
    && (forall i :: 0 <= i < |cs| ==> cs[i] != [])
    && (forall i, j :: 0 <= i < |cs| && 0 <= j < |cs| && i != j ==> !(cs[i] <= cs[j]))
  }

  /** Files that the file system can hold at the same time, with paths that its parser accepts. */
  ghost predicate Installable(fs: seq<FileInfo>)
  {
    && Regular(fs) && Total(fs) < TWO63
    && (forall i :: 0 <= i < |fs| ==> Parse(Encode(Rooted(fs[i]))).Ok?)
    && NoneAbove(PathsOf(fs))
  }

  lemma {:induction false} PathsAt(fs: seq<FileInfo>, i: nat)
    requires i <= |fs|
    ensures PathsOf(fs[..i]) == PathsOf(fs)[..i]
    ensures i < |fs| ==> PathsOf(fs)[i] == PathAt(fs[i])
  {
    if i < |fs| {
      var front := fs[..|fs| - 1];
      PathsAt(front, i);
      assert front[..i] == fs[..i];
    } else {
      assert fs[..i] == fs;
    }
  }

  /** One path more brings itself and the missing paths above it, which are directories. */
  lemma OnePathMore(f: Flat, c: Path, p: Path) returns (k: nat)
    requires c != [] && [] in f
    ensures k <= |c| && c[..k] in f
    ensures p in Grow(f, [], c, false, |c|) <==> p in f || (k < |p| && p <= c)
    ensures p in Grow(f, [], c, false, |c|) ==> Grow(f, [], c, false, |c|)[p] == if p in f then f[p] else p != c
  {
    GrowKeys(f, [], c, false, |c|, p);
    GrowKinds(f, [], c, false, |c|, p);
    k := Depth(f, [], c, |c|);
    assert [] + c == c && c[..|c|] == c && [] + c[..k] == c[..k];
    assert p <= c <==> |p| <= |c| && p == c[..|p|];
  }

  lemma TreeSplit(cs: seq<Path>)
    requires cs != []
    ensures var n := |cs| - 1; TreeOf(cs) == Grow(TreeOf(cs[..n]), [], cs[n], false, |cs[n]|)
  {
  }

  lemma NoneAboveFront(cs: seq<Path>, n: nat)
    requires NoneAbove(cs) && n < |cs|
    ensures NoneAbove(cs[..n]) && cs[n] != []
    ensures forall j :: 0 <= j < n ==> cs[..n][j] == cs[j] && !(cs[n] <= cs[j]) && !(cs[j] <= cs[n])
  {
    forall j | 0 <= j < n
      ensures cs[..n][j] == cs[j] && !(cs[n] <= cs[j]) && !(cs[j] <= cs[n])
    {
    }
  }

  /** `p` is one of the paths or lies above one. */
  ghost predicate AtOrAbove(cs: seq<Path>, p: Path)
  {
    exists j :: 0 <= j < |cs| && p <= cs[j]
  }

  /** Exactly the files, the directories above them, and the root exist; only the files are files. */
  lemma {:induction false} TreeMeans(cs: seq<Path>, p: Path)
    requires NoneAbove(cs)
    ensures [] in TreeOf(cs)
    ensures p in TreeOf(cs) <==> p == [] || AtOrAbove(cs, p)
    ensures p in TreeOf(cs) ==> (TreeOf(cs)[p] <==> p !in cs)
  {
    hide Grow, NoneAbove, AtOrAbove;
    if cs == [] {
      NothingAbove(p);
    } else {
      hide TreeOf;
      var n := |cs| - 1;
      var front, c := cs[..n], cs[n];
      TreeSplit(cs);
      NoneAboveFront(cs, n);
      TreeMeans(front, p);
      var _ := OnePathMore(TreeOf(front), c, []);
      var k := OnePathMore(TreeOf(front), c, p);
      TreeMeans(front, c[..k]);
      PathMore(cs, p, k);
    }
  }

  lemma NothingAbove(p: Path)
    ensures !AtOrAbove([], p) && TreeOf([]) == map[[] := true]
  {
  }

  /** Which paths lie above one path more. */
  lemma PathMore(cs: seq<Path>, p: Path, k: nat)
    requires cs != [] && NoneAbove(cs)
    requires var n := |cs| - 1; k <= |cs[n]| && (cs[n][..k] == [] || AtOrAbove(cs[..n], cs[n][..k]))
    ensures var n := |cs| - 1;
            var front, c := cs[..n], cs[n];
            && (p <= c && p != [] && |p| <= k ==> AtOrAbove(front, p))
            && (AtOrAbove(cs, p) <==> p <= c || AtOrAbove(front, p))
            && (p in cs <==> p in front || p == c)
            && (p == c ==> !AtOrAbove(front, p))
            && [] !in cs
  {
    var n := |cs| - 1;
    var front, c := cs[..n], cs[n];
    NoneAboveFront(cs, n);
    assert cs == front + [c];
    assert forall j :: 0 <= j < n ==> front[j] == cs[j];
    if p <= c && p != [] && |p| <= k {
      var j :| 0 <= j < n && c[..k] <= front[j];
      assert p == c[..k][..|p|] && p <= front[j];
    }
  }

  /** Every file has its data, unless it needs a larger buffer for which there is no memory; then it is
      empty. There are no other files. */
  lemma {:induction false} ContentsMean(fs: seq<FileInfo>, larger: set<nat>, i: nat)
    requires i < |fs| && NoneAbove(PathsOf(fs))
    ensures PathAt(fs[i]) in ContentsOf(fs, larger)
    ensures ContentsOf(fs, larger)[PathAt(fs[i])] == fs[i].data <==> |fs[i].data| <= DEFAULT_FILE_SIZE || i in larger
    ensures ContentsOf(fs, larger)[PathAt(fs[i])] in {fs[i].data, []}
    ensures forall p :: p in ContentsOf(fs, larger) <==> p in PathsOf(fs)
  {
    var front := fs[..|fs| - 1];
    PathsAt(fs, i);
    PathsAt(fs, |fs| - 1);
    if i < |fs| - 1 {
      ContentsMean(front, larger, i);
    } else if front != [] {
      ContentsMean(front, larger, 0);
    }
  }

  lemma {:induction false} TreeGrows(cs: seq<Path>, i: nat)
    requires i <= |cs|
    ensures |TreeOf(cs[..i])| <= |TreeOf(cs)|
  {
    if i < |cs| {
      var front, c := cs[..|cs| - 1], cs[|cs| - 1];
      TreeGrows(front, i);
      assert front[..i] == cs[..i];
      GrowSize(TreeOf(front), [], c, false, |c|);
    } else {
      assert cs[..i] == cs;
    }
  }

  lemma TreeStep(cs: seq<Path>, i: nat)
    requires i < |cs|
    ensures TreeOf(cs[..i + 1]) == Grow(TreeOf(cs[..i]), [], cs[i], false, |cs[i]|)
  {
    assert cs[..i + 1][..i] == cs[..i];
  }

  /** One file more: it is made with everything above it, unless the nodes run out. */
  lemma InstallOne(cs: seq<Path>, i: nat, f': Flat, at: Tree, nodes: nat, r: Result<nat>)
    requires NoneAbove(cs) && i < |cs| && |TreeOf(cs[..i])| <= nodes
    requires [] in TreeOf(cs[..i])
    requires Outcome(TreeOf(cs[..i]), f', at, [], cs[i], false, true, nodes - |TreeOf(cs[..i])|, r)
    ensures |TreeOf(cs[..i + 1])| <= nodes ==> r.Ok? && f' == TreeOf(cs[..i + 1])
    ensures |TreeOf(cs[..i + 1])| > nodes ==> r == Err(ENOMEM)
  {
    hide TreeOf, NoneAbove;
    TreeStep(cs, i);
    var f, c := TreeOf(cs[..i]), cs[i];
    GrowSize(f, [], c, false, |c|);
    assert [] + c == c && c[..|c|] == c;
    NoneAboveFront(cs, i);
    TreeMeans(cs[..i], c);
    var k := Depth(f, [], c, |c|);
    assert [] + c[..k] == c[..k];
    TreeMeans(cs[..i], c[..k]);
    TreeMeans(cs[..i], []);
  }

  // ----- The C code ----------------------------------------------------------------------------

  lemma WrappedStep(h: nat, b: Byte)
    ensures ((h * 32 % TWO64 + h) % TWO64 + b) % TWO64 == (33 * h + b) % TWO64
  {
    WrappedSum(h * 32, h);
    WrappedSum(h * 32 + h, b);
  }

  lemma WrappedSum(x: nat, y: nat)
    ensures (x % TWO64 + y) % TWO64 == (x + y) % TWO64
  {
  }

  /** `djb2_hash`, in wrapping 64-bit arithmetic. */
  method Djb2Hash(data: seq<Byte>) returns (hash: nat)
    ensures hash == Djb2(data)
  {
    hash := 5381;
    for i := 0 to |data|
      invariant hash == Djb2(data[..i])
    {
      assert data[..i + 1][..i] == data[..i];
      WrappedStep(hash, data[i]);
      hash := ((hash * 32 % TWO64 + hash) % TWO64 + data[i]) % TWO64;
    }
    assert data[..|data|] == data;
  }

  // The three signed fields of the entry at `at`.

  function OffsetAt(m: seq<Byte>, at: nat): int
    requires at + INDEX_SIZE <= |m|
  {
    Signed(U64At(m, at + 8))
  }

  function SizeAt(m: seq<Byte>, at: nat): int
    requires at + INDEX_SIZE <= |m|
  {
    Signed(U64At(m, at + 16))
  }

  function PathLengthAt(m: seq<Byte>, at: nat): int
    requires at + INDEX_SIZE <= |m|
  {
    Signed(U64At(m, at + 24))
  }

  /** The entry at `at` lies in the archive, and so do its path and data, which have its hash. */
  ghost predicate Intact(a: seq<Byte>, at: nat)
  {
    && at + INDEX_SIZE <= |a|
    && 0 <= OffsetAt(a, at) && 0 <= PathLengthAt(a, at) <= SizeAt(a, at)
    && OffsetAt(a, at) + SizeAt(a, at) <= |a|
    && Djb2(a[OffsetAt(a, at)..OffsetAt(a, at) + SizeAt(a, at)]) == U64At(a, at)
  }

  /** The archive is the first `len` bytes of the memory `m`, which starts at address `base`. The entry
      at `at` passes the comparisons of lines 33 to 45, and the first one of line 47. */
  predicate Plausible(m: seq<Byte>, len: nat, base: int, at: nat)
  {
    && at < len && at + INDEX_SIZE <= |m|
    && 0 <= OffsetAt(m, at) && 0 <= PathLengthAt(m, at) <= SizeAt(m, at)
    && at + PathLengthAt(m, at) < TWO63 && at + PathLengthAt(m, at) + base < TWO63
  }

  /** It also passes the second one. */
  predicate Passes(m: seq<Byte>, len: nat, base: int, at: nat)
  {
    Plausible(m, len, base, at) && at + SizeAt(m, at) <= len
  }

  /** The entry passes all checks, and its hash is right. */
  predicate Accepted(m: seq<Byte>, len: nat, base: int, at: nat)
  {
    && Passes(m, len, base, at) && OffsetAt(m, at) + SizeAt(m, at) <= |m|
    && Djb2(m[OffsetAt(m, at)..OffsetAt(m, at) + SizeAt(m, at)]) == U64At(m, at)
  }

  /** Neither the entry nor its path and data reach beyond the archive. */
  predicate LiesInside(m: seq<Byte>, len: nat, at: nat)
    requires len <= |m|
  {
    at + INDEX_SIZE <= len && OffsetAt(m, at) + SizeAt(m, at) <= len
  }

  lemma FieldsInside(m: seq<Byte>, len: nat, at: nat)
    requires at + INDEX_SIZE <= len <= |m|
    ensures U64At(m[..len], at) == U64At(m, at) && OffsetAt(m[..len], at) == OffsetAt(m, at)
    ensures SizeAt(m[..len], at) == SizeAt(m, at) && PathLengthAt(m[..len], at) == PathLengthAt(m, at)
  {
    hide UnLE;
    var a := m[..len];
    assert a[at..at + 8] == m[at..at + 8] && a[at + 8..at + 16] == m[at + 8..at + 16];
    assert a[at + 16..at + 24] == m[at + 16..at + 24] && a[at + 24..at + 32] == m[at + 24..at + 32];
  }

  /** Line 47 tests the end of the wrong range. So an accepted entry is an intact part of the archive
      exactly if it lies inside, and intact entries inside are accepted. */
  lemma AcceptedIsIntact(m: seq<Byte>, len: nat, base: int, at: nat)
    requires len <= |m|
    ensures Accepted(m, len, base, at) ==> (Intact(m[..len], at) <==> LiesInside(m, len, at))
    ensures Intact(m[..len], at) && Passes(m, len, base, at) ==> Accepted(m, len, base, at)
  {
    if at + INDEX_SIZE <= len {
      hide U64At, Djb2;
      FieldsInside(m, len, at);
      var o, n := OffsetAt(m, at), SizeAt(m, at);
      assert 0 <= o && 0 <= n && o + n <= len ==> m[..len][o..o + n] == m[o..o + n];
    }
  }

  /** An archive of one entry that points behind its own end, to the path "/f" and no data. */
  function Pointing(): seq<Byte>
  {
    MAGIC_STRING + LE(1, 8) + LE(60, 8) + EntryBytes(Entry(Djb2([47, 102]), 60, 2, 2))
  }

  /** The archive, and the two bytes behind it. */
  function PointingBehind(): seq<Byte> { Pointing() + [47, 102] }

  /** The archive is accepted, wherever it lies, although its entry is not intact. */
  lemma AcceptedFromOutside(base: int)
    requires base + 62 <= TWO63
    ensures var m := PointingBehind();
            && |m| == 62 && HeaderOk(m[..60]) && Signed(U64At(m[..60], 8)) == 1
            && Accepted(m, 60, base, EntryOffset(0)) && !Intact(m[..60], EntryOffset(0))
  {
    hide LE, UnLE, U64At, Djb2, EntryBytes;
    var e := Entry(Djb2([47, 102]), 60, 2, 2);
    var m := PointingBehind();
    var a := m[..60];
    assert a == Pointing();
    assert a[..8] == MAGIC_STRING && a[8..16] == LE(1, 8) && a[16..24] == LE(60, 8);
    FieldAt(a, 8, 1);
    FieldAt(a, 16, 60);
    assert m[24..24 + INDEX_SIZE] == EntryBytes(e);
    EntryFields(m, 24, e);
    assert m[60..62] == [47, 102];
    AcceptedIsIntact(m, 60, base, 24);
  }

  /** The reader rejects the archive of a file with a path beyond ASCII: the hash is that of all three bytes of
      the path, but the entry's size covers only two. */
  lemma NonAsciiRejected(m: seq<Byte>, base: int)
    requires |m| >= 63 && m[..63] == Archive([ACCENTED]) && base + |m| <= TWO63
    ensures HeaderOk(m[..63]) && Signed(U64At(m[..63], 8)) == 1
    ensures Passes(m, 63, base, EntryOffset(0)) && !Accepted(m, 63, base, EntryOffset(0))
  {
    hide U64At, Djb2, Archive;
    AccentedFields();
    FieldsInside(m, 63, 24);
    assert m[60..62] == m[..63][60..62];
    HashesDiffer();
  }

  ghost predicate HeaderOk(a: seq<Byte>)
  {
    && HEADER_SIZE <= |a| && a[..8] == MAGIC_STRING
    && 0 <= Signed(U64At(a, 8)) && 0 <= Signed(U64At(a, 16)) <= |a|
  }

  /** The entry at `at` passes every check of the reader and leads to the path and data of `f`. */
  ghost predicate Readable(m: seq<Byte>, len: nat, base: int, at: nat, f: FileInfo)
  {
    && Accepted(m, len, base, at)
    && PathBytes(m, at) == Encode(Rooted(f)) && DataBytes(m, at) == f.data
  }

  function PathBytes(m: seq<Byte>, at: nat): seq<Byte>
    requires at + INDEX_SIZE <= |m| && 0 <= OffsetAt(m, at) && 0 <= PathLengthAt(m, at)
    requires OffsetAt(m, at) + PathLengthAt(m, at) <= |m|
  {
    m[OffsetAt(m, at)..OffsetAt(m, at) + PathLengthAt(m, at)]
  }

  function DataBytes(m: seq<Byte>, at: nat): seq<Byte>
    requires at + INDEX_SIZE <= |m| && 0 <= OffsetAt(m, at) && 0 <= PathLengthAt(m, at) <= SizeAt(m, at)
    requires OffsetAt(m, at) + SizeAt(m, at) <= |m|
  {
    m[OffsetAt(m, at) + PathLengthAt(m, at)..OffsetAt(m, at) + SizeAt(m, at)]
  }

  lemma EntryRead(m: seq<Byte>, len: nat, base: int, fs: seq<FileInfo>, i: nat)
    requires len <= |m| && m[..len] == Archive(fs) && Regular(fs) && Total(fs) < TWO63 && i < |fs|
    requires base + |m| <= TWO63
    ensures Readable(m, len, base, EntryOffset(i), fs[i])
  {
    hide Archive, Djb2, U64At, Encode, Rooted, Body, OffsetAt, SizeAt, PathLengthAt;
    var o, f := EntryFor(fs[..i + 1], |fs|).offset, fs[i];
    var n, p := |Body(f)|, |Encode(Rooted(f))|;
    EntryFieldsRead(m, len, fs, i);
    BodyIs(f);
    SliceOfSlice(m, o, n, 0, p);
    SliceOfSlice(m, o, n, p, n);
  }

  lemma BodyIs(f: FileInfo)
    ensures |Encode(Rooted(f))| <= |Body(f)|
    ensures Body(f)[0..|Encode(Rooted(f))|] == Encode(Rooted(f)) && Body(f)[|Encode(Rooted(f))|..|Body(f)|] == f.data
  {
  }

  /** The fields of the `i`-th entry, and where they lead. */
  lemma EntryFieldsRead(m: seq<Byte>, len: nat, fs: seq<FileInfo>, i: nat)
    requires len <= |m| && m[..len] == Archive(fs) && Regular(fs) && Total(fs) < TWO63 && i < |fs|
    ensures var at, o, f := EntryOffset(i), EntryFor(fs[..i + 1], |fs|).offset, fs[i];
            && at < o && at + INDEX_SIZE <= len && o + |Body(f)| <= len < TWO63
            && U64At(m, at) == Djb2(Body(f)) && OffsetAt(m, at) == o
            && SizeAt(m, at) == |Body(f)| && PathLengthAt(m, at) == |Encode(Rooted(f))|
            && m[o..o + |Body(f)|] == Body(f)
  {
    hide Archive, Djb2, U64At, Encode, Rooted, Body;
    var o, n := EntryFor(fs[..i + 1], |fs|).offset, |Body(fs[i])|;
    HeaderFields(fs);
    EntryAt(fs, i);
    BodySize(fs[i]);
    FieldsInside(m, len, EntryOffset(i));
    assert m[o..o + n] == m[..len][o..o + n];
  }

  /** The archive of `fs`, and an empty file system. */
  ghost predicate Pristine(a: seq<Byte>, fs: seq<FileInfo>, flat: Flat, data: map<Path, seq<Byte>>)
  {
    a == Archive(fs) && Installable(fs) && flat == map[[] := true] && data == map[]
  }

  /** The scratch arena suffices for making the `i`-th file when its turn comes. */
  ghost predicate Fits(fs: seq<FileInfo>, i: nat)
    requires i < |fs|
  {
    var cs := PathsOf(fs);
    ScratchOk(TreeOf(cs[..i]), [], cs[i], StrippedLen(Encode(Rooted(fs[i]))), true, 0)
  }

  /** For each of the first `n` entries the arena suffices, and there is memory for its first buffer. */
  ghost predicate AllServed(fs: seq<FileInfo>, first: set<nat>, n: nat)
  {
    n <= |fs| && forall i: nat :: i < n ==> i in first && Fits(fs, i)
  }

  lemma NoneServed(fs: seq<FileInfo>, first: set<nat>)
    ensures AllServed(fs, first, 0)
  {
  }

  lemma OneMoreServed(fs: seq<FileInfo>, first: set<nat>, i: nat)
    requires i < |fs| && AllServed(fs, first, i)
    ensures if i in first && Fits(fs, i) then AllServed(fs, first, i + 1) else !AllServed(fs, first, |fs|)
  {
    hide Fits;
  }

  /** The state after the first `i` files. */
  ghost predicate Installed(fs: seq<FileInfo>, larger: set<nat>, i: nat, flat: Flat, data: map<Path, seq<Byte>>,
                            nodes: nat)
  {
    i <= |fs| && flat == TreeOf(PathsOf(fs)[..i]) && data == ContentsOf(fs[..i], larger) && |flat| <= nodes
  }

  lemma NothingInstalled(fs: seq<FileInfo>, larger: set<nat>, nodes: nat)
    requires nodes > 0
    ensures Installed(fs, larger, 0, map[[] := true], map[], nodes)
  {
    assert PathsOf(fs)[..0] == [] && fs[..0] == [];
  }

  /** Making the node of the next file succeeds or there are not enough nodes for all. */
  lemma NextCreated(fs: seq<FileInfo>, larger: set<nat>, i: nat, f: Flat, f': Flat, data: map<Path, seq<Byte>>,
                    at: Tree, c: Path, nodes: nat, free: nat, made: Result<nat>)
    requires Installable(fs) && i < |fs| && Installed(fs, larger, i, f, data, nodes) && free == nodes - |f|
    requires Parse(Encode(Rooted(fs[i]))) == Ok(c) && [] in f && Outcome(f, f', at, [], c, false, true, free, made)
    ensures made.Ok? ==>
              Installed(fs, larger, i + 1, f', data[c := Arriving(fs[i].data, i in larger)], nodes)
    ensures !made.Ok? ==> made == Err(ENOMEM) && nodes < |TreeOf(PathsOf(fs)[..i + 1])| <= |TreeOf(PathsOf(fs))|
  {
    hide Outcome, TreeOf, Encode, PathsOf, ContentsOf, NoneAbove, Regular, Rooted, Arriving, Parse, PathAt;
    var cs := PathsOf(fs);
    PathParsed(fs[i], c);
    PathsAt(fs, i);
    InstallOne(cs, i, f', at, nodes, made);
    TreeGrows(cs, i + 1);
    ContentsStep(fs, larger, i);
  }

  lemma PathParsed(f: FileInfo, c: Path)
    requires Parse(Encode(Rooted(f))) == Ok(c)
    ensures c == PathAt(f)
  {
  }

  lemma FitsNow(fs: seq<FileInfo>, larger: set<nat>, i: nat, f: Flat, data: map<Path, seq<Byte>>, nodes: nat, c: Path)
    requires i < |fs| && Installed(fs, larger, i, f, data, nodes) && Parse(Encode(Rooted(fs[i]))) == Ok(c)
    ensures Fits(fs, i) <==> ScratchOk(f, [], c, StrippedLen(Encode(Rooted(fs[i]))), true, 0)
  {
    hide TreeOf, Encode, PathsOf, ContentsOf, Rooted, ScratchOk;
    PathsAt(fs, i);
  }

  lemma ContentsStep(fs: seq<FileInfo>, larger: set<nat>, i: nat)
    requires i < |fs|
    ensures ContentsOf(fs[..i + 1], larger) ==
              ContentsOf(fs[..i], larger)[PathAt(fs[i]) := Arriving(fs[i].data, i in larger)]
  {
    Front(fs, i + 1);
  }

  lemma AllInstalled(fs: seq<FileInfo>, larger: set<nat>, flat: Flat, data: map<Path, seq<Byte>>, nodes: nat)
    requires Installed(fs, larger, |fs|, flat, data, nodes)
    ensures flat == TreeOf(PathsOf(fs)) && data == ContentsOf(fs, larger) && |TreeOf(PathsOf(fs))| <= nodes
  {
    hide TreeOf, ContentsOf, PathsOf;
    assert fs[..|fs|] == fs && PathsOf(fs)[..|fs|] == PathsOf(fs);
  }

  lemma WholeFile(contents: map<Path, seq<Byte>>, p: Path, data: seq<Byte>)
    ensures contents[p := []][p := Spliced([], data, 0)] == contents[p := data]
  {
    assert Spliced([], data, 0) == data;
  }

  /** The files before the `k`-th are there, and what is missing for it decides the result. */
  ghost predicate Stopped(fs: seq<FileInfo>, first: set<nat>, nodes: nat, k: nat, r: Result<()>)
  {
    && k < |fs| && AllServed(fs, first, k) && |TreeOf(PathsOf(fs)[..k])| <= nodes
    && r == (if Fits(fs, k) then Err(ENOMEM) else Crashed)
    && (Fits(fs, k) ==> k !in first || |TreeOf(PathsOf(fs)[..k + 1])| > nodes)
  }

  lemma StopsHere(fs: seq<FileInfo>, larger: set<nat>, first: set<nat>, i: nat, nodes: nat, r: Result<()>,
                  f: Flat, data: map<Path, seq<Byte>>)
    requires i < |fs| && AllServed(fs, first, i) && Installed(fs, larger, i, f, data, nodes)
    requires r == if Fits(fs, i) then Err(ENOMEM) else Crashed
    requires Fits(fs, i) && i in first ==> nodes < |TreeOf(PathsOf(fs)[..i + 1])| <= |TreeOf(PathsOf(fs))|
    ensures Stopped(fs, first, nodes, i, r)
    ensures !(|TreeOf(PathsOf(fs))| <= nodes && AllServed(fs, first, |fs|))
  {
    hide TreeOf, PathsOf, Fits, ContentsOf;
  }

  /** `archive_extract`, for an archive that is the first `len` bytes of the readable memory `m`. A read
      of other memory and an overflowing sum are `Crashed`. If the archive was written for the files
      `fs`, and the file system was empty, they all arrive and nothing else, unless there are not enough
      nodes or buffers for them, or the scratch arena does not suffice, which crashes; `k` is then the
      first file for which something is missing. A file whose larger buffer cannot be allocated is left
      empty without an error. Any other archive is rejected unless its header and all of its entries are
      accepted. `first` and `larger` are the entries for whose buffers there is memory. */
  method ArchiveExtract(m: seq<Byte>, len: nat, base: int, rfs: RamFs, first: set<nat>, larger: set<nat>,
                        ghost fs: seq<FileInfo>)
    returns (r: Result<()>, ghost k: nat)
    requires len <= |m| && len < TWO63 && base + |m| <= TWO63
    requires rfs.Valid()
    modifies rfs, rfs.pool, rfs.pool.blocks
    ensures rfs.Valid()
    ensures Pristine(m[..len], fs, old(rfs.Flat()), old(rfs.Data())) ==>
              var tree := TreeOf(PathsOf(fs));
              && (r.Ok? <==> |tree| <= rfs.pool.blocks.Length && AllServed(fs, first, |fs|))
              && (r.Ok? ==> rfs.Flat() == tree && rfs.Data() == ContentsOf(fs, larger))
              && (!r.Ok? ==> Stopped(fs, first, rfs.pool.blocks.Length, k, r))
    ensures !HeaderOk(m[..len]) ==> r == Err(EINVAL) && rfs.Flat() == old(rfs.Flat()) && rfs.Data() == old(rfs.Data())
    ensures r.Ok? ==>
              && HeaderOk(m[..len])
              && forall i: nat :: i < Signed(U64At(m, 8)) ==>
                   && Accepted(m, len, base, EntryOffset(i))
                   && (Intact(m[..len], EntryOffset(i)) <==> LiesInside(m, len, EntryOffset(i)))
  {
    hide Intact, Accepted, LiesInside, Archive, Installable, Installed, TreeOf, ContentsOf, PathsOf, U64At, Djb2,
         Encode;
    hide Outcome, FlatOf, Shape, FreeList, KindsOk, DataOf, Regular, Parse, Rooted, AllServed, HeaderOk, Pristine,
         Stopped, Fits;
    ghost var a := m[..len];
    ghost var good := Pristine(a, fs, rfs.Flat(), rfs.Data());
    ghost var nodes := rfs.pool.blocks.Length;
    HeaderIs(a);
    NoneServed(fs, first);
    k := 0;
    rfs.RootFacts();
    if good {
      PristineStart(a, fs, larger, rfs.Flat(), rfs.Data(), nodes);
    }
    if len < HEADER_SIZE {
      return Err(EINVAL), 0;
    }
    HeaderInside(m, len);
    if m[..8] != MAGIC_STRING {
      return Err(EINVAL), 0;
    }
    var n, size := Signed(U64At(m, 8)), Signed(U64At(m, 16));
    if size > len || size < 0 || n < 0 {
      return Err(EINVAL), 0;
    }
    var at, i := HEADER_SIZE, 0;
    while i < n
      invariant rfs.Valid()
      invariant 0 <= i <= n && at == EntryOffset(i)
      invariant forall j: nat :: j < i ==> Accepted(m, len, base, EntryOffset(j))
      invariant good ==> n == |fs| && Installed(fs, larger, i, rfs.Flat(), rfs.Data(), nodes)
      invariant good ==> AllServed(fs, first, i)
    {
      if good {
        EntryParses(a, fs, i);
        OneMoreServed(fs, first, i);
      }
      ghost var f, data := rfs.Flat(), rfs.Data();
      r := ExtractEntry(m, len, base, at, rfs, i in first, i in larger, fs, larger, i, good);
      if !r.Ok? {
        if good {
          StopsHere(fs, larger, first, i, rfs.pool.blocks.Length, r, f, data);
        }
        return r, i;
      }
      at, i := at + INDEX_SIZE, i + 1;
    }
    if good {
      AllInstalled(fs, larger, rfs.Flat(), rfs.Data(), nodes);
    }
    forall j: nat | j < n
      ensures Accepted(m, len, base, EntryOffset(j))
      ensures Intact(a, EntryOffset(j)) <==> LiesInside(m, len, EntryOffset(j))
    {
      AcceptedIsIntact(m, len, base, EntryOffset(j));
    }
    return Ok(()), 0;
  }

  lemma HeaderIs(a: seq<Byte>)
    ensures HeaderOk(a) <==>
              && HEADER_SIZE <= |a| && a[..8] == MAGIC_STRING
              && 0 <= Signed(U64At(a, 8)) && 0 <= Signed(U64At(a, 16)) <= |a|
  {
  }

  lemma HeaderInside(m: seq<Byte>, len: nat)
    requires HEADER_SIZE <= len <= |m|
    ensures m[..len][..8] == m[..8]
    ensures U64At(m[..len], 8) == U64At(m, 8) && U64At(m[..len], 16) == U64At(m, 16)
  {
    hide UnLE;
    assert m[..len][8..16] == m[8..16] && m[..len][16..24] == m[16..24];
  }

  lemma PristineStart(a: seq<Byte>, fs: seq<FileInfo>, larger: set<nat>, flat: Flat, data: map<Path, seq<Byte>>,
                      nodes: nat)
    requires Pristine(a, fs, flat, data) && |flat| <= nodes
    ensures a == Archive(fs) && Installable(fs) && Installed(fs, larger, 0, flat, data, nodes)
    ensures HEADER_SIZE <= |a| < TWO63 && a[..8] == MAGIC_STRING
    ensures Signed(U64At(a, 8)) == |fs| && Signed(U64At(a, 16)) == |a|
  {
    hide Archive, U64At;
    HeaderFields(fs);
    NothingInstalled(fs, larger, nodes);
  }

  lemma EntryParses(a: seq<Byte>, fs: seq<FileInfo>, i: nat)
    requires a == Archive(fs) && Installable(fs) && i < |fs|
    ensures Regular(fs) && Total(fs) < TWO63 && Parse(Encode(Rooted(fs[i]))).Ok?
  {
  }

  /** The checks in the loop of `archive_extract`; they lead to the path and data of an entry. The
      reader looks at memory that is not part of the archive exactly if the index entry is cut off
      or the entry passes all comparisons and its path and data lie beyond the end. */
  method CheckEntry(m: seq<Byte>, len: nat, base: int, at: nat)
    returns (r: Result<(seq<Byte>, seq<Byte>)>, ghost outside: bool)
    requires len <= |m| && len < TWO63 && base + |m| <= TWO63
    ensures r.Ok? <==> Accepted(m, len, base, at)
    ensures r.Ok? ==> r.value == (PathBytes(m, at), DataBytes(m, at))
    ensures r.Crashed? <==>
              && at < len
              && (|| at + INDEX_SIZE > |m|
                  || (Plausible(m, len, base, at) && at + SizeAt(m, at) >= TWO63)
                  || (Passes(m, len, base, at) && OffsetAt(m, at) + SizeAt(m, at) > |m|))
    ensures r.Err? ==> r.code == EINVAL
    ensures outside <==>
              && at < len
              && (at + INDEX_SIZE > len || (Passes(m, len, base, at) && !LiesInside(m, len, at)))
    ensures r.Ok? ==>
              && at < len && at + 36 <= |m|
              && var o, n, p := OffsetAt(m, at), SizeAt(m, at), PathLengthAt(m, at);
              && 0 <= o && 0 <= p <= n && at + n <= len && o + n <= |m|
              && r.value.0 == m[o..o + p] && r.value.1 == m[o + p..o + n]
              && Djb2(m[o..o + n]) == U64At(m, at)
  {
    hide U64At, Djb2;
    outside := false;
    if base + at >= TWO63 || at >= len {
      return Err(EINVAL), outside;
    }
    outside := at + INDEX_SIZE > len;
    if at + INDEX_SIZE > |m| {
      return Crashed, outside;
    }
    var offset, size, pathLength := Signed(U64At(m, at + 8)), Signed(U64At(m, at + 16)), Signed(U64At(m, at + 24));
    if offset < 0 || size < 0 || pathLength < 0 {
      return Err(EINVAL), outside;
    }
    if at + pathLength >= TWO63 || at + pathLength + base >= TWO63 {
      return Err(EINVAL), outside;
    }
    if pathLength > size {
      return Err(EINVAL), outside;
    }
    if at + size >= TWO63 {
      return Crashed, outside;
    }
    if at + size > len {
      return Err(EINVAL), outside;
    }
    outside := outside || offset + size > len;
    if offset + size > |m| {
      return Crashed, outside;
    }
    var path, data := m[offset..offset + pathLength], m[offset + pathLength..offset + size];
    var hash := Djb2Hash(m[offset..offset + size]);
    if hash != U64At(m, at) {
      return Err(EINVAL), outside;
    }
    return Ok((path, data)), outside;
  }

  /** The body of the loop in `archive_extract`. An entry that is not accepted changes nothing; from an
      accepted one the file of its path is made, with its data. */
  method ExtractEntry(m: seq<Byte>, len: nat, base: int, at: nat, rfs: RamFs, first: bool, more: bool,
                      ghost fs: seq<FileInfo>, ghost larger: set<nat>, ghost i: nat, ghost good: bool)
    returns (r: Result<()>)
    requires len <= |m| && len < TWO63 && base + |m| <= TWO63
    requires rfs.Valid() && at == EntryOffset(i)
    requires good ==> m[..len] == Archive(fs) && Installable(fs) && i < |fs|
    requires good ==> Installed(fs, larger, i, rfs.Flat(), rfs.Data(), rfs.pool.blocks.Length)
    requires good ==> (more <==> i in larger)
    modifies rfs, rfs.pool, rfs.pool.blocks
    ensures rfs.Valid()
    ensures good && r.Ok? ==>
              first && Fits(fs, i) && Installed(fs, larger, i + 1, rfs.Flat(), rfs.Data(), rfs.pool.blocks.Length)
    ensures good && !r.Ok? ==>
              && r == (if Fits(fs, i) then Err(ENOMEM) else Crashed)
              && (Fits(fs, i) && first ==>
                    rfs.pool.blocks.Length < |TreeOf(PathsOf(fs)[..i + 1])| <= |TreeOf(PathsOf(fs))|)
    ensures !Accepted(m, len, base, at) ==> !r.Ok? && rfs.Flat() == old(rfs.Flat()) && rfs.Data() == old(rfs.Data())
    ensures r.Ok? ==>
              && Parse(PathBytes(m, at)).Ok?
              && rfs.Data() == old(rfs.Data())[Parse(PathBytes(m, at)).value := Arriving(DataBytes(m, at), more)]
  {
    hide Archive, Installable, Installed, TreeOf, ContentsOf, PathsOf, Encode, Outcome, Accepted, Readable, U64At;
    hide FlatOf, Shape, FreeList, KindsOk, DataOf, Regular, Parse, Rooted, ScratchOk, Fits, StrippedLen;
    ReadableIs(m, len, base, at);
    if good {
      EntryParses(m[..len], fs, i);
      EntryRead(m, len, base, fs, i);
    }
    var entry, _ := CheckEntry(m, len, base, at);
    if !entry.Ok? {
      return entry.Failure();
    }
    rfs.RootFacts();
    var path := entry.value.0;
    ghost var f, free: nat, contents := rfs.Flat(), |rfs.pool.list|, rfs.Data();
    ghost var made;
    r, made := WriteNew(path, entry.value.1, rfs, first, more);
    if good {
      ghost var nodes, c := rfs.pool.blocks.Length, Parse(path).value;
      FitsNow(fs, larger, i, f, contents, nodes, c);
      if Fits(fs, i) {
        NextCreated(fs, larger, i, f, rfs.Flat(), contents, rfs.at, c, nodes, free, made);
      }
    }
  }

  lemma ReadableIs(m: seq<Byte>, len: nat, base: int, at: nat)
    ensures forall f :: Readable(m, len, base, at, f) ==>
              && Accepted(m, len, base, at)
              && PathBytes(m, at) == Encode(Rooted(f)) && DataBytes(m, at) == f.data
    ensures Accepted(m, len, base, at) ==>
              && at + INDEX_SIZE <= |m| && 0 <= OffsetAt(m, at) && 0 <= PathLengthAt(m, at) <= SizeAt(m, at)
              && OffsetAt(m, at) + SizeAt(m, at) <= |m|
  {
  }

  /** Make the file `path` and write `data`; whether the write succeeds is not looked at. */
  method WriteNew(path: seq<Byte>, data: seq<Byte>, rfs: RamFs, first: bool, more: bool)
    returns (r: Result<()>, ghost made: Result<nat>)
    requires rfs.Valid()
    modifies rfs, rfs.pool, rfs.pool.blocks
    ensures rfs.Valid()
    ensures r == if !made.Ok? then made.Failure() else if first then Ok(()) else Err(ENOMEM)
    ensures r.Ok? ==> Parse(path).Ok?
    ensures Parse(path).Ok? ==>
              var c := Parse(path).value;
              && [] in old(rfs.Flat())
              && rfs.Data() == (if r.Ok? then old(rfs.Data())[c := Arriving(data, more)] else old(rfs.Data()))
              && if ScratchOk(old(rfs.Flat()), [], c, StrippedLen(path), true, 0) then
                   Outcome(old(rfs.Flat()), rfs.Flat(), rfs.at, [], c, false, true, old(|rfs.pool.list|), made)
                 else made == Crashed && rfs.Flat() == old(rfs.Flat())
  {
    hide FlatOf, Shape, FreeList, KindsOk, DataOf, Extends, Parse, Spliced, Outcome, ScratchOk;
    rfs.RootFacts();
    ghost var f, free: nat, contents := rfs.Flat(), |rfs.pool.list|, rfs.Data();
    var node;
    node, made := rfs.CreateFile(rfs.root, path, true, first, []);
    if !node.Ok? {
      return node.Failure(), made;
    }
    ghost var c := Parse(path).value;
    assert [] + c == c;
    Made(f, rfs.Flat(), rfs.at, [], c, false, true, free, made);
    NewFileIsEmpty(rfs, contents, c, node.value);
    WholeFile(contents, c, data);
    var _ := rfs.Write(node.value, data, 0, more, c);
    return Ok(()), made;
  }

  lemma NewFileIsEmpty(rfs: RamFs, contents: map<Path, seq<Byte>>, c: Path, node: nat)
    requires rfs.Valid() && c in rfs.at && rfs.at[c] == node && rfs.Data() == contents[c := []] && node in rfs.files
    ensures !rfs.Flat()[c] && rfs.Data()[c] == []
  {
    hide Shape, FreeList, KindsOk, DataOf, FlatOf;
    rfs.NodeFacts(c);
  }

  // ----- A file that is lost -------------------------------------------------------------------

  /** "/f" */
  function OneFile(data: seq<Byte>): FileInfo { FileInfo(['f'], |data|, data) }

  /** One file of 4097 bytes, in a new file system, without memory for a second buffer: the extraction
      reports success and leaves the file empty. */
  method LargeFileIsLost(data: seq<Byte>) returns (rfs: RamFs, r: Result<()>)
    requires |data| == 4097
    ensures rfs.Valid() && r.Ok? && rfs.Data() == map[[[102]] := []]
  {
    hide Installable, Archive, Fits, TreeOf, ContentsOf, PathsOf, Regular, FlatOf, Shape, FreeList, Pristine, Accepted,
         LiesInside, Intact, U64At, HeaderOk, AllServed, KindsOk;
    ghost var fs := [OneFile(data)];
    OneFileInstallable(data);
    OneFileServed(data);
    rfs := new RamFs();
    var m := Archive([OneFile(data)]);
    OneFileArchive(data, m);
    FreshIsPristine(m, fs, rfs);
    ghost var k;
    r, k := ArchiveExtract(m, |m|, 0, rfs, {0}, {}, fs);
  }

  lemma OneFileArchive(data: seq<Byte>, m: seq<Byte>)
    requires |data| == 4097 && m == Archive([OneFile(data)])
    ensures |m| < TWO63 && m[..|m|] == m
  {
    hide Archive;
    var fs := [OneFile(data)];
    OneFileTotal(data);
    HeaderFields(fs);
  }

  lemma FreshIsPristine(m: seq<Byte>, fs: seq<FileInfo>, rfs: RamFs)
    requires rfs.Valid() && rfs.Flat() == map[[] := true] && rfs.files == map[]
    requires m == Archive(fs) && Installable(fs)
    ensures Pristine(m, fs, rfs.Flat(), rfs.Data())
  {
    hide Archive, Installable, Shape, FreeList, FlatOf, KindsOk;
    assert rfs.Stored() == map[];
  }

  lemma OneFileTree(data: seq<Byte>)
    ensures var cs := PathsOf([OneFile(data)]);
            cs == [[[102]]] && TreeOf(cs[..0]) == map[[] := true] && |TreeOf(cs)| == 2
  {
    hide Grow;
    var fs := [OneFile(data)];
    OneFilePath(data);
    assert fs[..0] == [] && PathsOf(fs) == [] + [PathAt(fs[0])];
    var cs := PathsOf(fs);
    assert cs[..0] == [];
    TreeSplit(cs);
    GrowSize(map[[] := true], [], [[102]], false, 1);
    OnlyRoot([[102]], 1);
  }

  lemma OneFileInstallable(data: seq<Byte>)
    requires |data| == 4097
    ensures Installable([OneFile(data)])
  {
    hide PathsOf, Encode, Split;
    var fs := [OneFile(data)];
    OneFilePath(data);
    OneFileTree(data);
    OneFileTotal(data);
    assert PathsOf(fs)[0] != [];
  }

  lemma OneFileTotal(data: seq<Byte>)
    ensures Total([OneFile(data)]) == HEADER_SIZE + INDEX_SIZE + 2 + |data|
  {
    var fs := [OneFile(data)];
    assert fs[..|fs| - 1] == [];
    assert CountedAll([]) == 0;
    assert Rooted(OneFile(data)) == ['/', 'f'];
  }

  lemma OneFileServed(data: seq<Byte>)
    requires |data| == 4097
    ensures var fs := [OneFile(data)];
            AllServed(fs, {0}, 1) && |TreeOf(PathsOf(fs))| == 2 && ContentsOf(fs, {}) == map[[[102]] := []]
  {
    hide TreeOf, PathsOf, ScratchOk, Encode;
    var fs := [OneFile(data)];
    OneFilePath(data);
    OneFileTree(data);
    ScratchBounds(map[[] := true], [], [[102]], 1);
    assert Fits(fs, 0);
    assert fs[..0] == [];
  }

  lemma OneFilePath(data: seq<Byte>)
    ensures var s := Encode(Rooted(OneFile(data)));
            s == [47, 102] && Parse(s) == Ok([[102]]) && StrippedLen(s) == 1 && PathAt(OneFile(data)) == [[102]]
  {
    assert ['/', 'f'][1..] == ['f'] && ['f'][1..] == [];
    assert Rooted(OneFile(data)) == ['/', 'f'];
    SlashFirst([102]);
    assert [SLASH] + [102] == [47, 102];
    SplitName([102]);
  }
}
