/** Creating nodes in src/ramfs.c, as a function on the map from existing paths to node types. */
module FsSpec {
  import opened Common
  import opened Paths
  import opened FsTree

  /** How many of the first `n` components of `c` lead from `q` to something that exists. */
  function Depth(flat: Flat, q: Path, c: Path, n: nat): (k: nat)
    requires n <= |c|
    ensures k <= n
    ensures k > 0 ==> q + c[..k] in flat
    ensures k < n ==> q + c[..n] !in flat
  {
    if n == 0 || q + c[..n] in flat then n else Depth(flat, q, c, n - 1)
  }

  /** The paths made by the first `n` components of `c` added: directories, but for the whole of `c`. */
  function Grow(flat: Flat, q: Path, c: Path, isDir: bool, n: nat): Flat
    requires n <= |c|
  {
    if n == 0 || q + c[..n] in flat then flat
    else Grow(flat, q, c, isDir, n - 1)[q + c[..n] := isDir || n < |c|]
  }

  /** What `ram_fs_create_common` reports with `free` nodes left, and how far it gets: with too few
      nodes, the directories that could be made remain. */
  function Creation(flat: Flat, q: Path, c: Path, recursive: bool, free: nat): (Result<()>, nat)
    requires q in flat
  {
    var k := Depth(flat, q, c, |c|);
    if k == |c| then (Err(EEXIST), 0)
    else if !recursive && k + 1 < |c| then (Err(ENOENT), 0)
    else if !(if k == 0 then flat[q] else flat[q + c[..k]]) then (Err(ENOTDIR), 0)
    else if free < |c| - k then (Err(ENOMEM), k + free)
    else (Ok(()), |c|)
  }

  lemma Prefixes(c: Path, n: nat, k: nat)
    requires k <= n <= |c|
    ensures c[..n][..k] == c[..k]
  {
  }

  /** What exists after `Grow`. */
  lemma {:induction false} GrowKeys(flat: Flat, q: Path, c: Path, isDir: bool, n: nat, p: Path)
    requires n <= |c|
    ensures var k := Depth(flat, q, c, n);
            p in Grow(flat, q, c, isDir, n) <==>
              p in flat || (|q| + k < |p| <= |q| + n && p == (q + c)[..|p|])
    ensures p in flat ==> Grow(flat, q, c, isDir, n)[p] == flat[p]
  {
    if n == 0 || q + c[..n] in flat {
    } else {
      GrowKeys(flat, q, c, isDir, n - 1, p);
      assert (q + c)[..|q| + n] == q + c[..n];
    }
  }

  lemma {:induction false} GrowSize(flat: Flat, q: Path, c: Path, isDir: bool, n: nat)
    requires n <= |c|
    ensures |Grow(flat, q, c, isDir, n)| == |flat| + n - Depth(flat, q, c, n)
  {
    if n == 0 || q + c[..n] in flat {
    } else {
      GrowSize(flat, q, c, isDir, n - 1);
      GrowKeys(flat, q, c, isDir, n - 1, q + c[..n]);
      NewKey(Grow(flat, q, c, isDir, n - 1), q + c[..n], isDir || n < |c|);
    }
  }

  lemma NewKey<K, V>(m: map<K, V>, k: K, v: V)
    requires k !in m
    ensures |m[k := v]| == |m| + 1
  {
    assert m[k := v].Keys == m.Keys + {k};
  }

  /** Making the parent first goes through the same steps. */
  lemma {:induction false} GrowParent(flat: Flat, q: Path, c: Path, isDir: bool, n: nat)
    requires c != [] && n < |c|
    ensures Depth(flat, q, Init(c), n) == Depth(flat, q, c, n)
    ensures Grow(flat, q, Init(c), true, n) == Grow(flat, q, c, isDir, n)
  {
    Prefixes(c, |c| - 1, n);
    if n > 0 && q + c[..n] !in flat {
      GrowParent(flat, q, c, isDir, n - 1);
    }
  }

  /** The recursive case: with the parent missing, `c` is made after its parent if nodes are left. */
  lemma CreateParentFirst(flat: Flat, q: Path, c: Path, isDir: bool, free: nat)
    requires q in flat && c != [] && q + Init(c) !in flat && q + c !in flat
    ensures var (r, n) := Creation(flat, q, Init(c), true, free);
            var (r', n') := Creation(flat, q, c, true, free);
            && Grow(flat, q, Init(c), true, n) == Grow(flat, q, c, isDir, n)
            && (!r.Ok? ==> r' == r && n' == n)
            && (r.Ok? ==>
                  var f := Grow(flat, q, Init(c), true, n);
                  var left := free - (|f| - |flat|);
                  && n == |c| - 1 && q + Init(c) in f && f[q + Init(c)] && q + c !in f && left >= 0
                  && (left == 0 ==> r' == Err(ENOMEM) && n' == n)
                  && (left > 0 ==> r' == Ok(()) && n' == |c| && Grow(flat, q, c, isDir, n') == f[q + c := isDir]))
  {
    var m := |c| - 1;
    assert c[..|c|] == c && Init(c)[..m] == Init(c) && c[..m] == Init(c);
    assert q + [] == q;
    GrowParent(flat, q, c, isDir, m);
    Prefixes(c, m, Depth(flat, q, c, m));
    var (r, n) := Creation(flat, q, Init(c), true, free);
    GrowParent(flat, q, c, isDir, n);
    if r.Ok? {
      GrowSize(flat, q, Init(c), true, n);
      GrowKeys(flat, q, Init(c), true, n, q + c);
    }
  }

  // ----- The result of a call ------------------------------------------------------------------

  /** `ram_fs_create_common` turns `f` into `f'` and returns `r`; `at` gives the nodes afterwards. */
  ghost predicate Outcome(f: Flat, f': Flat, at: Tree, q: Path, c: Path, isDir: bool, recursive: bool, free: nat,
                          r: Result<nat>)
    requires q in f
  {
    var (res, n) := Creation(f, q, c, recursive, free);
    && f' == Grow(f, q, c, isDir, n)
    && match res
       case Ok(_) => q + c in at && r == Ok(at[q + c])
       case _ => r == res.Failure()
  }

  /** What the last step, making `name` in an existing directory `d`, does and returns. */
  ghost predicate ChildMade(f: Flat, f': Flat, at: Tree, d: Path, name: Name, isDir: bool, free: nat, r: Result<nat>)
    requires d in f
  {
    if !f[d] then r == Err(ENOTDIR) && f' == f
    else if d + [name] in f then r == Err(EEXIST) && f' == f
    else if free == 0 then r == Err(ENOMEM) && f' == f
    else d + [name] in at && r == Ok(at[d + [name]]) && f' == f[d + [name] := isDir]
  }

  lemma RootExists(f: Flat, at: Tree, q: Path, isDir: bool, recursive: bool, free: nat)
    requires q in f
    ensures Outcome(f, f, at, q, [], isDir, recursive, free, Err(EEXIST))
  {
  }

  lemma NoParent(f: Flat, at: Tree, q: Path, c: Path, isDir: bool, free: nat)
    requires q in f && c != [] && q + Init(c) !in f && q + c !in f
    ensures Outcome(f, f, at, q, c, isDir, false, free, Err(ENOENT))
  {
    assert c[..|c|] == c && Init(c) == c[..|c| - 1] && q + [] == q;
  }

  lemma InParent(f: Flat, f': Flat, at: Tree, q: Path, c: Path, isDir: bool, recursive: bool, free: nat, r: Result<nat>)
    requires q in f && c != [] && q + Init(c) in f && (q + c in f ==> f[q + Init(c)])
    requires ChildMade(f, f', at, q + Init(c), Last(c), isDir, free, r)
    ensures Outcome(f, f', at, q, c, isDir, recursive, free, r)
  {
    assert c[..|c|] == c && Init(c) == c[..|c| - 1];
    assert q + Init(c) + [Last(c)] == q + c;
    if |c| == 1 {
      assert q + Init(c) == q;
    }
    assert Depth(f, q, c, |c|) == if q + c in f then |c| else |c| - 1;
    assert Grow(f, q, c, isDir, |c| - 1) == f;
  }

  lemma ParentNotMade(f: Flat, f1: Flat, at1: Tree, q: Path, c: Path, isDir: bool, free: nat, r: Result<nat>)
    requires q in f && c != [] && q + Init(c) !in f && q + c !in f
    requires Outcome(f, f1, at1, q, Init(c), true, true, free, r) && !r.Ok?
    ensures Outcome(f, f1, at1, q, c, isDir, true, free, r)
  {
    CreateParentFirst(f, q, c, isDir, free);
  }

  lemma Made(f: Flat, f': Flat, at: Tree, q: Path, c: Path, isDir: bool, recursive: bool, free: nat, r: Result<nat>)
    requires q in f && Outcome(f, f', at, q, c, isDir, recursive, free, r) && r.Ok?
    ensures q + c in at && r.value == at[q + c]
  {
  }

  lemma AfterParent(f: Flat, f1: Flat, at1: Tree, f2: Flat, at2: Tree, q: Path, c: Path, isDir: bool,
                    free: nat, left: nat, made: Result<nat>, r: Result<nat>)
    requires q in f && c != [] && q + Init(c) !in f && q + c !in f
    requires Outcome(f, f1, at1, q, Init(c), true, true, free, made) && made.Ok?
    requires |f1| + left == |f| + free
    requires q + Init(c) in f1 ==> ChildMade(f1, f2, at2, q + Init(c), Last(c), isDir, left, r)
    ensures q + Init(c) in f1
    ensures Outcome(f, f2, at2, q, c, isDir, true, free, r)
  {
    CreateParentFirst(f, q, c, isDir, free);
    assert q + Init(c) + [Last(c)] == q + c;
  }

  lemma {:induction false} GrowKinds(f: Flat, q: Path, c: Path, isDir: bool, n: nat, p: Path)
    requires n <= |c|
    ensures var g := Grow(f, q, c, isDir, n);
            p in g && p !in f ==> g[p] == (isDir || p != q + c) && (p == q + c ==> n == |c|)
  {
    if n > 0 && q + c[..n] !in f {
      GrowKinds(f, q, c, isDir, n - 1, p);
      GrowKeys(f, q, c, isDir, n - 1, p);
      if p == q + c[..n] {
        assert n == |c| ==> c[..n] == c;
        assert n < |c| ==> |p| != |q + c|;
      }
    }
  }

  /** All nodes that are made are directories, but for the one asked for, which exists on success. */
  lemma MadeKinds(f: Flat, f': Flat, at: Tree, q: Path, c: Path, isDir: bool, recursive: bool, free: nat,
                  r: Result<nat>)
    requires q in f && Outcome(f, f', at, q, c, isDir, recursive, free, r)
    ensures forall p :: p in f ==> p in f' && f'[p] == f[p]
    ensures forall p :: p in f' && p !in f ==> f'[p] == (isDir || p != q + c) && (p == q + c ==> r.Ok?)
    ensures r.Ok? ==> q + c in f' && q + c !in f && q + c in at && r.value == at[q + c]
  {
    var (res, n) := Creation(f, q, c, recursive, free);
    forall p
      ensures p in f ==> p in f' && f'[p] == f[p]
      ensures p in f' && p !in f ==> f'[p] == (isDir || p != q + c) && (p == q + c ==> n == |c|)
    {
      GrowKinds(f, q, c, isDir, n, p);
      GrowKeys(f, q, c, isDir, n, p);
    }
    assert c[..|c|] == c;
  }

  // ----- What creation means -------------------------------------------------------------------

  /** With a path the one above it exists, as in every file system. */
  ghost predicate Closed(f: Flat)
  {
    [] in f && forall p {:trigger Above(f, p)} :: p in f ==> Above(f, p)
  }

  ghost predicate Above(f: Flat, p: Path)
  {
    p != [] ==> Init(p) in f
  }

  lemma {:induction false} AllAbove(f: Flat, p: Path, k: nat)
    requires Closed(f) && p in f && k <= |p|
    ensures p[..k] in f
    decreases |p|
  {
    if k == |p| {
      assert p[..k] == p;
    } else {
      assert Above(f, p);
      AllAbove(f, Init(p), k);
      assert Init(p)[..k] == p[..k];
    }
  }

  /** A successful call makes the new path and the missing ones above it, as directories, and nothing
      else; nothing that exists changes. Only for lack of nodes does a failed call leave anything. */
  lemma CreationMeans(f: Flat, f': Flat, at: Tree, q: Path, c: Path, isDir: bool, recursive: bool, free: nat,
                      r: Result<nat>)
    requires Closed(f) && q in f && Outcome(f, f', at, q, c, isDir, recursive, free, r)
    ensures forall p :: p in f ==> p in f' && f'[p] == f[p]
    ensures r.Ok? ==> (forall p :: p in f' <==> p in f || p <= q + c) && q + c !in f
    ensures r.Ok? ==> f'[q + c] == isDir && q + c in at && r.value == at[q + c]
    ensures forall p :: p in f' && p !in f && p != q + c ==> f'[p]
    ensures !r.Ok? && r != Err(ENOMEM) ==> f' == f
    ensures r.Ok? && !recursive ==> q + Init(c) in f
  {
    MadeKinds(f, f', at, q, c, isDir, recursive, free, r);
    if r.Ok? {
      var k := Depth(f, q, c, |c|);
      assert q + c[..|c|] == q + c && q + [] == q;
      forall p
        ensures p in f' <==> p in f || p <= q + c
      {
        GrowKeys(f, q, c, isDir, |c|, p);
        if p <= q + c && |p| <= |q| + k {
          AllAbove(f, q + c[..k], |p|);
          assert (q + c[..k])[..|p|] == p;
        }
      }
      if !recursive {
        assert c[..k] == Init(c);
      }
    }
  }

  /** Where `q + c[..k]` is the last path on the way to `c` that exists, `k` is what `Depth` finds. */
  lemma {:induction false} DepthIs(f: Flat, q: Path, c: Path, k: nat, n: nat)
    requires Closed(f) && q in f && k < n <= |c| && q + c[..k] in f && q + c[..k + 1] !in f
    ensures q + c[..n] !in f && Depth(f, q, c, n) == k
  {
    assert (q + c[..n])[..|q| + k + 1] == q + c[..k + 1];
    if q + c[..n] in f {
      AllAbove(f, q + c[..n], |q| + k + 1);
    }
    if n > k + 1 {
      DepthIs(f, q, c, k, n - 1);
    } else if k > 0 {
      assert Depth(f, q, c, k) == k;
    }
  }

  /** The errors: the path exists, or the one above it does not and must not be made, or the last path that
      exists is a file, or there are fewer nodes than missing paths. In that order, and for no other reason. */
  lemma CreationErrors(f: Flat, f': Flat, at: Tree, q: Path, c: Path, isDir: bool, recursive: bool, free: nat,
                       r: Result<nat>, k: nat)
    requires Closed(f) && q in f && Outcome(f, f', at, q, c, isDir, recursive, free, r)
    requires k <= |c| && q + c[..k] in f && (k < |c| ==> q + c[..k + 1] !in f)
    ensures r == Err(EEXIST) <==> q + c in f
    ensures r == Err(ENOENT) <==> k + 1 < |c| && !recursive
    ensures r == Err(ENOTDIR) <==> k < |c| && (k + 1 == |c| || recursive) && !f[q + c[..k]]
    ensures r == Err(ENOMEM) <==> k < |c| && (k + 1 == |c| || recursive) && f[q + c[..k]] && free < |c| - k
    ensures r.Ok? <==> k < |c| && (k + 1 == |c| || recursive) && f[q + c[..k]] && free >= |c| - k
    ensures r == Err(ENOMEM) ==> forall p :: p in f' <==> p in f || (p <= q + c && |q| + k < |p| <= |q| + k + free)
  {
    assert q + c[..|c|] == q + c && q + [] == q;
    if k < |c| {
      DepthIs(f, q, c, k, |c|);
      if k == 0 {
        assert c[..k] == [];
      }
      forall p | r == Err(ENOMEM)
        ensures p in f' <==> p in f || (p <= q + c && |q| + k < |p| <= |q| + k + free)
      {
        DepthIs(f, q, c, k, |c|);
        Partly(f, q, c, isDir, k, k + free, p);
      }
    }
  }

  lemma Partly(f: Flat, q: Path, c: Path, isDir: bool, k: nat, n: nat, p: Path)
    requires Closed(f) && q in f && k <= n < |c| && q + c[..k] in f && q + c[..k + 1] !in f
    ensures p in Grow(f, q, c, isDir, n) <==> p in f || (p <= q + c && |q| + k < |p| <= |q| + n)
  {
    GrowKeys(f, q, c, isDir, n, p);
    if k < n {
      DepthIs(f, q, c, k, n);
    } else {
      assert k > 0 ==> Depth(f, q, c, n) == k;
    }
    assert |p| <= |q + c| ==> (p <= q + c <==> p == (q + c)[..|p|]);
  }

  // ----- The scratch arena ---------------------------------------------------------------------

  /** Whether the arena, of which `used` bytes are in use, suffices for making `c` below `q`, given as a
      path of stripped length `len`. Every missing level prints the path above it and parses it again,
      and nothing is given back before the call returns. */
  ghost predicate ScratchOk(flat: Flat, q: Path, c: Path, len: nat, recursive: bool, used: nat)
    decreases |c|
  {
    var parsed := AfterParse(used, len);
    && parsed <= SCRATCH_SIZE
    && (c != [] && recursive && q + Init(c) !in flat ==>
          && AfterPrint(parsed) <= SCRATCH_SIZE
          && ScratchOk(flat, q, Init(c), StrippedLen(Print(Init(c))), true, AfterPrint(parsed)))
  }

  /** The number of directories missing above `c`. */
  function MissingAbove(flat: Flat, q: Path, c: Path): nat
    requires c != []
  {
    |c| - 1 - Depth(flat, q, c, |c| - 1)
  }

  /** With no directory missing, the length decides; with four or more, the call always crashes. */
  lemma ScratchBounds(flat: Flat, q: Path, c: Path, len: nat)
    requires c != []
    ensures MissingAbove(flat, q, c) == 0 && q in flat ==> (ScratchOk(flat, q, c, len, true, 0) <==> len <= 1819)
    ensures MissingAbove(flat, q, c) >= 4 ==> !ScratchOk(flat, q, c, len, true, 0)
  {
    ParseFits(len);
    if ScratchOk(flat, q, c, len, true, 0) {
      ScratchNeeds(flat, q, c, len, 0);
    }
    assert Init(c) == c[..|c| - 1];
    if |c| == 1 {
      assert q + Init(c) == q;
    }
  }

  lemma {:induction false} ScratchNeeds(flat: Flat, q: Path, c: Path, len: nat, used: nat)
    requires c != [] && ScratchOk(flat, q, c, len, true, used)
    ensures used + PATH_NAME_MAX_LEN * MissingAbove(flat, q, c) < SCRATCH_SIZE
    decreases |c|
  {
    assert Init(c) == c[..|c| - 1];
    if MissingAbove(flat, q, c) > 0 {
      var n := |c| - 2;
      GrowParent(flat, q, c, true, n);
      ScratchNeeds(flat, q, Init(c), StrippedLen(Print(Init(c))), AfterPrint(AfterParse(used, len)));
    }
  }

  const FIVE_LEVELS: Path := [[97], [98], [99], [100], [101]]

  /** "/a/b/c/d/e", with nothing but the root there. */
  lemma FiveLevels()
    ensures Print(FIVE_LEVELS) == [47, 97, 47, 98, 47, 99, 47, 100, 47, 101]
    ensures !ScratchOk(map[[] := true], [], FIVE_LEVELS, 9, true, 0)
  {
    FiveJoined();
    OnlyRoot(FIVE_LEVELS, 4);
    ScratchBounds(map[[] := true], [], FIVE_LEVELS, 9);
  }

  lemma {:induction false} OnlyRoot(c: Path, n: nat)
    requires n <= |c|
    ensures Depth(map[[] := true], [], c, n) == 0
  {
    if n > 0 {
      OnlyRoot(c, n - 1);
      assert |[] + c[..n]| == n;
    }
  }

  lemma FiveJoined()
    ensures Joined(FIVE_LEVELS) == [47, 97, 47, 98, 47, 99, 47, 100, 47, 101]
  {
    var c := FIVE_LEVELS;
    assert c == [c[0]] + [c[1]] + [c[2]] + [c[3]] + [c[4]];
    JoinedAppend([], c[0]);
    JoinedAppend([c[0]], c[1]);
    JoinedAppend([c[0]] + [c[1]], c[2]);
    JoinedAppend([c[0]] + [c[1]] + [c[2]], c[3]);
    JoinedAppend([c[0]] + [c[1]] + [c[2]] + [c[3]], c[4]);
    assert [] + [c[0]] == [c[0]] && Joined([]) == [];
  }
}
