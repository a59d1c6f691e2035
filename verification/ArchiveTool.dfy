/** scripts/archive.py: writing archives and reading them back. */
module ArchiveTool {
  import opened Common
  import opened ArchiveFormat

  method Hash(data: seq<Byte>) returns (h: nat)
    ensures h == Djb2(data)
  {
    h := 5381;
    for i := 0 to |data|
      invariant h == Djb2(data[..i])
    {
      assert data[..i + 1][..i] == data[..i];
      h := (h * 32 + h + data[i]) % TWO64;
    }
    assert data[..|data|] == data;
  }

  /** `create_archive`. Numbers of 2^63 and more do not fit the format and raise an error. */
  method CreateArchive(fs: seq<FileInfo>) returns (a: seq<Byte>)
    requires Total(fs) < TWO63
    ensures a == Archive(fs)
  {
    hide CountedAll, Index, Bodies, Djb2, Encode, EntryBytes, LE;
    NoFiles(|fs|);
    assert fs[..0] == [];
    var total: nat := HEADER_SIZE + |fs| * INDEX_SIZE;
    for i := 0 to |fs|
      invariant total == HEADER_SIZE + |fs| * INDEX_SIZE + CountedAll(fs[..i])
    {
      OneMore(fs, |fs|, i);
      total := total + |Rooted(fs[i])| + fs[i].size;
    }
    assert fs[..|fs|] == fs;
    var header := MAGIC_STRING + LE(|fs|, 8) + LE(total, 8);

    var index, offset: nat := [], HEADER_SIZE + |fs| * INDEX_SIZE;
    for i := 0 to |fs|
      invariant index == Index(fs[..i], |fs|)
      invariant offset == HEADER_SIZE + |fs| * INDEX_SIZE + CountedAll(fs[..i])
    {
      OneMore(fs, |fs|, i);
      var f := fs[i];
      var hash := Hash(Encode(Rooted(f)) + f.data);
      var pathLength := |Rooted(f)|;
      index := index + EntryBytes(Entry(hash, offset, f.size + pathLength, pathLength));
      offset := offset + f.size + pathLength;
    }

    var bodies := [];
    for i := 0 to |fs|
      invariant bodies == Bodies(fs[..i])
    {
      OneMore(fs, |fs|, i);
      bodies := bodies + (Encode(Rooted(fs[i])) + fs[i].data);
    }
    a := header + index + bodies;
  }

  lemma NoFiles(n: nat)
    ensures CountedAll([]) == 0 && Index([], n) == [] && Bodies([]) == []
  {
  }

  lemma OneMore(fs: seq<FileInfo>, n: nat, i: nat)
    requires i < |fs|
    ensures CountedAll(fs[..i + 1]) == CountedAll(fs[..i]) + |Rooted(fs[i])| + fs[i].size
    ensures Bodies(fs[..i + 1]) == Bodies(fs[..i]) + (Encode(Rooted(fs[i])) + fs[i].data)
    ensures var f := fs[i];
            Index(fs[..i + 1], n) == Index(fs[..i], n) +
              EntryBytes(Entry(Djb2(Encode(Rooted(f)) + f.data), HEADER_SIZE + n * INDEX_SIZE + CountedAll(fs[..i]),
                               f.size + |Rooted(f)|, |Rooted(f)|))
  {
    hide EntryBytes, Utf8Char, LE;
    Front(fs, i + 1);
    var f, more := fs[i], fs[..i + 1];
    assert EntryFor(more, n) == Entry(Djb2(Body(f)), HEADER_SIZE + n * INDEX_SIZE + CountedAll(fs[..i]), f.size +
        |Rooted(f)|, |Rooted(f)|);
  }

  // ----- Reading -------------------------------------------------------------------------------

  /** Python's `s[from:to]`. */
  function Slice(s: seq<Byte>, from: int, to: int): seq<Byte>
  {
    var i, j := Clamp(from, |s|), Clamp(to, |s|);
    if i <= j then s[i..j] else []
  }

  function Clamp(i: int, n: nat): (k: nat)
    ensures k <= n
  {
    if i < 0 then Max(0, i + n) else Min(i, n)
  }

  /** In range it is the part from one position to the other; a negative position counts from the end, and
      what lies beyond an end is cut off. */
  lemma SliceMeans(s: seq<Byte>, from: int, to: int)
    ensures 0 <= from <= to <= |s| ==> Slice(s, from, to) == s[from..to]
    ensures -|s| <= from < 0 ==> Slice(s, from, to) == Slice(s, from + |s|, to)
    ensures -|s| <= to < 0 ==> Slice(s, from, to) == Slice(s, from, to + |s|)
    ensures from < -|s| ==> Slice(s, from, to) == Slice(s, 0, to)
    ensures to >= |s| ==> Slice(s, from, to) == Slice(s, from, |s|)
    ensures from >= |s| || (0 <= to < from) ==> Slice(s, from, to) == []
  {
  }

  /** Python's `s.strip('/')`. */
  function Strip(s: string): string { StripEnd(StripStart(s)) }

  function StripStart(s: string): string
  {
    if s != [] && s[0] == '/' then StripStart(s[1..]) else s
  }

  function StripEnd(s: string): string
  {
    if s != [] && s[|s| - 1] == '/' then StripEnd(s[..|s| - 1]) else s
  }

  datatype Extracted = Extracted(path: string, size: int, data: seq<Byte>)

  function Restored(fs: seq<FileInfo>): (r: seq<Extracted>)
    ensures |r| == |fs|
  {
    if fs == [] then []
    else
      var f := fs[|fs| - 1];
      Restored(fs[..|fs| - 1]) + [Extracted(Strip(Rooted(f)), |f.data|, f.data)]
  }

  /** The file that the entry at `at` leads to: its hash must be that of the bytes it spans. */
  function FileAt(a: seq<Byte>, at: nat): Option<Extracted>
  {
    if at + INDEX_SIZE > |a| then None
    else
      var offset, size, pathLength := Signed(U64At(a, at + 8)), Signed(U64At(a, at + 16)), Signed(U64At(a, at + 24));
      if U64At(a, at) != Djb2(Slice(a, offset, offset + size)) then None
      else
        match Decode(Slice(a, offset, offset + pathLength))
        case None => None
        case Some(path) =>
          Some(Extracted(Strip(path), size - pathLength, Slice(a, offset + pathLength, offset + size)))
  }

  /** `extract_archive`. It accepts exactly archives with the magic string all of whose entries have the
      right hash and a path in UTF-8; an archive of the files `fs` gives them back, in order. */
  method ExtractArchive(a: seq<Byte>, ghost fs: seq<FileInfo>) returns (r: Result<seq<Extracted>>)
    ensures a == Archive(fs) && Regular(fs) && Total(fs) < TWO63 ==> r == Ok(Restored(fs))
    ensures r.Ok? <==>
              && HEADER_SIZE <= |a| && a[..8] == MAGIC_STRING
              && forall i: nat :: i < Signed(U64At(a, 8)) ==> FileAt(a, EntryOffset(i)).Some?
    ensures r.Ok? ==>
              && |r.value| == Max(0, Signed(U64At(a, 8)))
              && forall i: nat :: i < |r.value| ==> FileAt(a, EntryOffset(i)) == Some(r.value[i])
  {
    hide Archive, Djb2, U64At, EntryFor, Encode, Decode, Body, Slice, Total, Regular, Restored, Strip, FileAt;
    ghost var written := a == Archive(fs) && Regular(fs) && Total(fs) < TWO63;
    if written {
      HeaderFields(fs);
    }
    if |a| < HEADER_SIZE {
      return Crashed;
    }
    if a[..8] != MAGIC_STRING {
      return Err(EINVAL);
    }
    var n := Signed(U64At(a, 8));
    var files, at, i := [], HEADER_SIZE, 0;
    NoneRestored();
    assert written ==> fs[..0] == [];
    while i < n
      invariant 0 <= i <= Max(0, n) && at == EntryOffset(i) && |files| == i
      invariant written ==> n == |fs| && files == Restored(fs[..i])
      invariant forall j: nat :: j < i ==> FileAt(a, EntryOffset(j)) == Some(files[j])
      decreases n - i
    {
      FileAtIs(a, at);
      if written {
        BodyParts(a, fs, i);
      }
      if at + INDEX_SIZE > |a| {
        return Crashed;
      }
      var offset, size, pathLength := Signed(U64At(a, at + 8)), Signed(U64At(a, at + 16)), Signed(U64At(a, at + 24));
      var hash := Hash(Slice(a, offset, offset + size));
      if U64At(a, at) != hash {
        return Err(EINVAL);
      }
      var path := Decode(Slice(a, offset, offset + pathLength));
      if path.None? {
        return Crashed;
      }
      var data := Slice(a, offset + pathLength, offset + size);
      files := files + [Extracted(Strip(path.value), size - pathLength, data)];
      at, i := at + INDEX_SIZE, i + 1;
    }
    assert written ==> fs[..|fs|] == fs;
    return Ok(files);
  }

  lemma FileAtIs(a: seq<Byte>, at: nat)
    ensures at + INDEX_SIZE > |a| ==> FileAt(a, at) == None
    ensures at + INDEX_SIZE <= |a| ==>
              var o, n, p := Signed(U64At(a, at + 8)), Signed(U64At(a, at + 16)), Signed(U64At(a, at + 24));
              var path := Decode(Slice(a, o, o + p));
              FileAt(a, at) ==
                if U64At(a, at) != Djb2(Slice(a, o, o + n)) || path.None? then None
                else Some(Extracted(Strip(path.value), n - p, Slice(a, o + p, o + n)))
  {
  }

  lemma NoneRestored()
    ensures Restored([]) == []
  {
  }

  /** What the reader finds at the `i`-th entry. */
  lemma BodyParts(a: seq<Byte>, fs: seq<FileInfo>, i: nat)
    requires a == Archive(fs) && Regular(fs) && Total(fs) < TWO63 && i < |fs|
    ensures var at, f := HEADER_SIZE + INDEX_SIZE * i, fs[i];
            && at + INDEX_SIZE <= |a|
            && var o, n, p := Signed(U64At(a, at + 8)), Signed(U64At(a, at + 16)), Signed(U64At(a, at + 24));
            && Djb2(Slice(a, o, o + n)) == U64At(a, at)
            && Decode(Slice(a, o, o + p)) == Some(Rooted(f))
            && Slice(a, o + p, o + n) == f.data && n - p == |f.data|
    ensures Restored(fs[..i + 1]) == Restored(fs[..i]) + [Extracted(Strip(Rooted(fs[i])), |fs[i].data|, fs[i].data)]
  {
    hide Archive, Djb2, U64At, LE, EntryFor, Encode, Decode, Rooted, Strip;
    Front(fs, i + 1);
    var o, f := EntryFor(fs[..i + 1], |fs|).offset, fs[i];
    var n, p := |Body(f)|, |Encode(Rooted(f))|;
    HeaderFields(fs);
    EntryAt(fs, i);
    BodySize(f);
    DecodeEncodeText(Rooted(f));
    Parts(a, o, Encode(Rooted(f)), f.data);
  }

  lemma Parts(a: seq<Byte>, o: nat, path: seq<Byte>, data: seq<Byte>)
    requires o + |path| + |data| <= |a| && a[o..o + |path| + |data|] == path + data
    ensures Slice(a, o, o + |path| + |data|) == path + data
    ensures Slice(a, o, o + |path|) == path && Slice(a, o + |path|, o + |path| + |data|) == data
  {
    var n := |path| + |data|;
    SliceOfSlice(a, o, n, 0, |path|);
    SliceOfSlice(a, o, n, |path|, n);
  }

  /** The archive of a file with a path beyond ASCII cannot be read back. */
  lemma NonAsciiUnreadable()
    ensures FileAt(Archive([ACCENTED]), EntryOffset(0)) == None
  {
    hide U64At, Djb2, Archive, Decode, Strip;
    var a := Archive([ACCENTED]);
    AccentedFields();
    HashesDiffer();
    assert Slice(a, 60, 62) == a[60..62];
    FileAtIs(a, 24);
  }

  // ----- The round trip ------------------------------------------------------------------------

  predicate Relative(path: string)
  {
    path == [] || (path[0] != '/' && path[|path| - 1] != '/')
  }

  /** Stripping the added slash restores the path exactly if the path has none at its ends. */
  lemma StripRooted(path: string)
    ensures Strip("/" + path) == path <==> Relative(path)
  {
    assert ("/" + path)[1..] == path;
    if path == [] {
      assert StripStart([]) == [] && StripEnd([]) == [];
    } else {
      StripsAway(path);
      StripsEnd(StripStart(path));
    }
  }

  lemma {:induction false} StripsAway(s: string)
    ensures |StripStart(s)| <= |s|
    ensures s != [] && s[0] == '/' ==> |StripStart(s)| < |s|
  {
    if s != [] && s[0] == '/' {
      StripsAway(s[1..]);
    }
  }

  lemma {:induction false} StripsEnd(s: string)
    ensures |StripEnd(s)| <= |s|
    ensures s != [] && s[|s| - 1] == '/' ==> |StripEnd(s)| < |s|
  {
    if s != [] && s[|s| - 1] == '/' {
      StripsEnd(s[..|s| - 1]);
    }
  }

  /** What the tool's own test compares: the files read back are those written, exactly if no path
      begins or ends with a slash. */
  lemma RoundTrip(fs: seq<FileInfo>)
    requires Regular(fs)
    ensures (forall i :: 0 <= i < |fs| ==> Restored(fs)[i] == Extracted(fs[i].path, fs[i].size, fs[i].data)) <==>
            (forall i :: 0 <= i < |fs| ==> Relative(fs[i].path))
  {
    forall i | 0 <= i < |fs|
      ensures Restored(fs)[i] == Extracted(fs[i].path, fs[i].size, fs[i].data) <==> Relative(fs[i].path)
    {
      RestoredAt(fs, i);
      StripRooted(fs[i].path);
    }
  }

  lemma {:induction false} RestoredAt(fs: seq<FileInfo>, i: nat)
    requires i < |fs|
    ensures Restored(fs)[i] == Extracted(Strip(Rooted(fs[i])), |fs[i].data|, fs[i].data)
  {
    if i < |fs| - 1 {
      RestoredAt(fs[..|fs| - 1], i);
    }
  }
}
