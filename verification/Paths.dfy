/** Path names of src/ramfs.c: the parser, the printer, and how they undo each other. */
module Paths {
  import opened Arith
  import opened Common

  type Name = seq<Byte>
  type Path = seq<Name>

  const SLASH: Byte := 47
  const PATH_NAME_MAX_LEN := 0x1000

  predicate NameOk(n: Name) { n != [] && SLASH !in n && 0 !in n }

  predicate PathOk(p: Path) { forall i :: 0 <= i < |p| ==> NameOk(p[i]) }

  /** The maximal runs of characters other than '/'. */
  function Split(s: seq<Byte>): (p: Path)
    decreases |s|
  {
    if s == [] then []
    else if s[0] == SLASH then Split(s[1..])
    else
      var k := Find(s, SLASH);
      [s[..k]] + Split(s[k..])
  }

  /** The position of the first `c`, or the length if there is none. */
  function Find(s: seq<Byte>, c: Byte): (k: nat)
    ensures k <= |s| && c !in s[..k]
    ensures k < |s| ==> s[k] == c
    ensures s != [] && s[0] != c ==> k > 0
  {
    if s == [] || s[0] == c then 0 else 1 + Find(s[1..], c)
  }

  function Print(p: Path): (s: seq<Byte>)
    ensures s != []
  {
    if p == [] then [SLASH] else Joined(p)
  }

  function Joined(p: Path): seq<Byte>
  {
    if p == [] then [] else [SLASH] + p[0] + Joined(p[1..])
  }

  /** What `path_name_parse` makes of a string. */
  function Parse(name: seq<Byte>): Result<Path>
  {
    if name == [] then Err(EINVAL)
    else if |name| > PATH_NAME_MAX_LEN then Err(ENAMETOOLONG)
    else if name[0] != SLASH then Crashed
    else if 0 in name then Err(EINVAL)
    else Ok(Split(name))
  }

  // ----- The scratch arena ---------------------------------------------------------------------

  const SCRATCH_SIZE := 4 * PATH_NAME_MAX_LEN
  const STR_SIZE := 16 // sizeof(struct str)

  /** The bytes in use after an allocation of `n` bytes at a multiple of 8. */
  function Bump(used: nat, n: nat): nat { AlignUp(used, 8) + n }

  /** The length of a path without its first slash and without one at its end. */
  function StrippedLen(name: seq<Byte>): nat
  {
    if name == [] then 0
    else if |name| > 1 && name[|name| - 1] == SLASH then |name| - 2
    else |name| - 1
  }

  /** What parsing takes: a copy of the string, and room for its components. */
  function AfterParse(used: nat, len: nat): nat { Bump(Bump(used, len), STR_SIZE * (len / 2 + 1)) }

  /** What printing takes. */
  function AfterPrint(used: nat): nat { Bump(used, PATH_NAME_MAX_LEN) }

  /** `path_name_parse` with so many bytes of the arena in use. It does not fail without memory. */
  function ParseIn(name: seq<Byte>, used: nat): Result<Path>
  {
    if Parse(name).Ok? && AfterParse(used, StrippedLen(name)) > SCRATCH_SIZE then Crashed else Parse(name)
  }

  /** An unused arena suffices for parsing up to this length, far less than PATH_NAME_MAX_LEN. */
  lemma ParseFits(len: nat)
    ensures AfterParse(0, len) <= SCRATCH_SIZE <==> len <= 1819
  {
  }

  // ----- Splitting -----------------------------------------------------------------------------

  /** A slash separates; with the two lemmas that follow this determines `Split`. */
  lemma {:induction false} SplitAtSlash(a: seq<Byte>, b: seq<Byte>)
    ensures Split(a + [SLASH] + b) == Split(a) + Split(b)
    decreases |a|
  {
    var s := a + [SLASH] + b;
    if a == [] {
      assert s[1..] == b;
    } else if a[0] == SLASH {
      assert s[1..] == a[1..] + [SLASH] + b;
      SplitAtSlash(a[1..], b);
    } else {
      var k := Find(a, SLASH);
      FindFirst(s, k);
      assert s[..k] == a[..k] && s[k..] == a[k..] + [SLASH] + b;
      SplitAtSlash(a[k..], b);
    }
  }

  lemma {:induction false} FindFirst(s: seq<Byte>, k: nat)
    requires k < |s| && s[k] == SLASH && SLASH !in s[..k]
    ensures Find(s, SLASH) == k
  {
    if k > 0 {
      assert s[0] == s[..k][0];
      assert s[1..][..k - 1] == s[..k][1..];
      FindFirst(s[1..], k - 1);
    }
  }

  lemma SplitName(n: Name)
    requires SLASH !in n
    ensures Split(n) == if n == [] then [] else [n]
  {
    if n != [] {
      var k := Find(n, SLASH);
      assert k == |n|;
      assert n[..k] == n && n[k..] == [];
    }
  }

  lemma {:induction false} SplitNames(s: seq<Byte>)
    requires 0 !in s
    ensures PathOk(Split(s))
    decreases |s|
  {
    if s != [] {
      if s[0] == SLASH {
        SplitNames(s[1..]);
      } else {
        SplitNames(s[Find(s, SLASH)..]);
      }
    }
  }

  /** A string of length `n` has at most `n / 2 + 1` components, one for every second character. */
  lemma {:induction false} ComponentsBound(s: seq<Byte>)
    ensures 2 * |Split(s)| <= |s| + 1
    ensures s != [] && s[0] == SLASH ==> 2 * |Split(s)| <= |s|
    decreases |s|
  {
    if s != [] {
      if s[0] == SLASH {
        ComponentsBound(s[1..]);
      } else {
        var k := Find(s, SLASH);
        ComponentsBound(s[k..]);
      }
    }
  }

  // ----- Printing ------------------------------------------------------------------------------

  /** Parsing a printed path gives the same components back. */
  lemma {:induction false} SplitPrint(p: Path)
    requires PathOk(p)
    ensures Split(Joined(p)) == p
  {
    if p != [] {
      var rest := Joined(p[1..]);
      SplitPrint(p[1..]);
      SlashFirst(p[0] + rest);
      assert Joined(p) == [SLASH] + (p[0] + rest);
      NameFirst(p[0], rest);
      assert p == [p[0]] + p[1..];
    }
  }

  lemma SlashFirst(s: seq<Byte>)
    ensures Split([SLASH] + s) == Split(s)
  {
    assert ([SLASH] + s)[1..] == s;
  }

  lemma NameFirst(n: Name, rest: seq<Byte>)
    requires NameOk(n) && (rest == [] || rest[0] == SLASH)
    ensures Split(n + rest) == [n] + Split(rest)
  {
    SplitName(n);
    if rest == [] {
      assert n + rest == n;
    } else {
      assert n + rest == n + [SLASH] + rest[1..];
      SplitAtSlash(n, rest[1..]);
    }
  }

  lemma {:induction false} JoinedHasNoNul(p: Path)
    requires PathOk(p)
    ensures 0 !in Joined(p)
  {
    if p != [] {
      JoinedHasNoNul(p[1..]);
    }
  }

  lemma ParsePrint(p: Path)
    requires PathOk(p) && |Print(p)| <= PATH_NAME_MAX_LEN
    ensures Parse(Print(p)) == Ok(p)
  {
    JoinedHasNoNul(p);
    SplitPrint(p);
    if p == [] {
      SplitAtSlash([], []);
      assert [SLASH] == [] + [SLASH] + [];
    }
  }

  /** The printer's buffer is never too small for what the parser accepts. */
  lemma {:induction false} PrintIsNoLonger(s: seq<Byte>)
    requires s != [] && s[0] == SLASH
    ensures |Joined(Split(s))| <= |s| && |Print(Split(s))| <= |s|
    decreases |s|
  {
    var t := s[1..];
    if t != [] {
      if t[0] == SLASH {
        PrintIsNoLonger(t);
      } else {
        var k := Find(t, SLASH);
        assert Split(t) == [t[..k]] + Split(t[k..]);
        if t[k..] != [] {
          PrintIsNoLonger(t[k..]);
        }
      }
    }
  }

  lemma {:induction false} JoinedAppend(p: Path, n: Name)
    ensures Joined(p + [n]) == Joined(p) + [SLASH] + n
  {
    if p == [] {
      assert ([] + [n])[1..] == [];
    } else {
      JoinedAppend(p[1..], n);
      assert (p + [n])[1..] == p[1..] + [n];
    }
  }

  /** Leaving out the last component does not make the printed path longer. */
  lemma PrintParent(p: Path)
    requires PathOk(p) && p != []
    ensures |Print(p[..|p| - 1])| < |Print(p)|
  {
    JoinedAppend(p[..|p| - 1], p[|p| - 1]);
    assert p == p[..|p| - 1] + [p[|p| - 1]];
  }

  // ----- The loops -----------------------------------------------------------------------------

  /** `str_find_char` */
  method FindChar(s: seq<Byte>, c: Byte) returns (r: Option<nat>)
    ensures r == if Find(s, c) < |s| then Some(Find(s, c)) else None
  {
    var i := 0;
    while i < |s|
      invariant i <= |s| && Find(s, c) == i + Find(s[i..], c)
    {
      if s[i] == c {
        return Some(i);
      }
      assert s[i..][1..] == s[i + 1..];
      i := i + 1;
    }
    return None;
  }

  /** `path_name_parse`. Relative paths fail an assertion; the assertion on the number of components
      never fails. `used` bytes of the arena are in use before, and `used'` afterwards. */
  method PathNameParse(name: seq<Byte>, used: nat) returns (r: Result<Path>, used': nat)
    ensures r == ParseIn(name, used)
    ensures r.Ok? ==> PathOk(r.value) && used' == AfterParse(used, StrippedLen(name))
    ensures r == Err(EINVAL) <==> name == [] || (|name| <= 4096 && name[0] == SLASH && 0 in name)
    ensures r == Err(ENAMETOOLONG) <==> |name| > 4096
    ensures r.Ok? || r == Err(EINVAL) || r == Err(ENAMETOOLONG) || r == Crashed
    ensures name != [] && |name| <= 4096 && name[0] != SLASH ==> r == Crashed
  {
    hide Split, Find, Bump;
    used' := used;
    SplitName([]);
    if |name| == 0 {
      return Err(EINVAL), used;
    }
    if |name| > PATH_NAME_MAX_LEN {
      return Err(ENAMETOOLONG), used;
    }
    if name[0] != SLASH {
      return Crashed, used;
    }
    var src := name[1..];
    if |src| > 0 && src[|src| - 1] == SLASH {
      src := src[..|src| - 1];
    }
    Stripped(name, src);
    var nul := FindChar(src, 0);
    FindTells(src, 0);
    if nul.Some? {
      return Err(EINVAL), used;
    }
    used' := Bump(used', |src|);
    BumpGrows(used', STR_SIZE * (|src| / 2 + 1));
    if used' > SCRATCH_SIZE {
      return Crashed, used;
    }
    var maxComponents := |src| / 2 + 1;
    used' := Bump(used', STR_SIZE * maxComponents);
    if used' > SCRATCH_SIZE {
      return Crashed, used;
    }
    SplitNames(src);
    var components: Path := [];
    ghost var all := src;
    while |src| > 0
      invariant components + Split(src) == Split(all)
      invariant 2 * |components| <= |all| - |src| + if src == [] then 1 else 0
      decreases |src|
    {
      if |components| >= maxComponents {
        return Crashed, used;
      }
      var slash := FindChar(src, SLASH);
      var curr;
      match slash {
        case None =>
          curr := src;
          src := [];
          SplitName(curr);
        case Some(k) =>
          assert src == src[..k] + [SLASH] + src[k + 1..];
          SplitAtSlash(src[..k], src[k + 1..]);
          SplitName(src[..k]);
          if k == 0 {
            src := src[1..];
            continue;
          }
          curr := src[..k];
          src := src[k + 1..];
      }
      components := components + [curr];
    }
    assert components == Split(all);
    return Ok(components), used';
  }

  lemma BumpGrows(used: nat, n: nat)
    ensures Bump(used, n) >= used + n
  {
  }

  lemma FindTells(s: seq<Byte>, c: Byte)
    ensures c in s <==> Find(s, c) < |s|
  {
    assert s[..|s|] == s;
  }

  /** Neither the leading slash nor a trailing one matters. */
  lemma Stripped(name: seq<Byte>, src: seq<Byte>)
    requires name != [] && name[0] == SLASH
    requires src == if |name| > 1 && name[|name| - 1] == SLASH then name[1..|name| - 1] else name[1..]
    ensures Split(src) == Split(name) && (0 in src <==> 0 in name) && |src| == StrippedLen(name)
  {
    assert name == [SLASH] + name[1..];
    if src != name[1..] {
      assert name[1..] == src + [SLASH] + [];
      SplitAtSlash(src, []);
    }
  }

  /** `str_buf_append`: all of `s` or, if it does not fit in `cap`, nothing. */
  function Appended(buf: seq<Byte>, cap: nat, s: seq<Byte>): seq<Byte>
  {
    if cap < |buf| + |s| then buf else buf + s
  }

  /** `path_name_to_str`, which ignores failed appends; there are none if the path fits. */
  method PathNameToStr(p: Path, used: nat) returns (r: Result<seq<Byte>>, used': nat)
    requires PathOk(p)
    ensures if AfterPrint(used) > SCRATCH_SIZE then r == Crashed else r.Ok? && used' == AfterPrint(used)
    ensures r.Ok? && |Print(p)| <= PATH_NAME_MAX_LEN ==> r.value == Print(p)
  {
    hide Joined;
    NothingJoined();
    used' := Bump(used, PATH_NAME_MAX_LEN);
    if used' > SCRATCH_SIZE {
      return Crashed, used;
    }
    var s := Appended([], PATH_NAME_MAX_LEN, [SLASH]);
    for i := 0 to |p|
      invariant |Print(p)| <= PATH_NAME_MAX_LEN ==> s == Print(p[..i])
    {
      JoinedAppend(p[..i], p[i]);
      JoinedPrefix(p, i + 1);
      assert p[..i + 1] == p[..i] + [p[i]];
      if i > 0 {
        s := Appended(s, PATH_NAME_MAX_LEN, [SLASH]);
      }
      s := Appended(s, PATH_NAME_MAX_LEN, p[i]);
    }
    assert p[..|p|] == p;
    return Ok(s), used';
  }

  lemma NothingJoined()
    ensures Joined([]) == []
  {
  }

  lemma {:induction false} JoinedPrefix(p: Path, i: nat)
    requires i <= |p|
    ensures |Joined(p[..i])| <= |Joined(p)|
  {
    if i > 0 {
      JoinedPrefix(p[1..], i - 1);
      assert p[..i][1..] == p[1..][..i - 1];
    }
  }
}
