/** The directory tree that first-child and next-sibling links of src/ramfs.c form in the node pool:
    `at` gives the node of every existing path, `kids` the names in every directory, in list order. */
module FsTree {
  import opened Pools
  import opened Paths

  datatype Node = Node(first: int, next: int, isDir: bool, name: Name)

  type Blocks = seq<Block<Node>>
  type Tree = map<Path, nat>
  type Kids = map<Path, seq<Name>>

  /** For every existing path whether it is a directory. */
  type Flat = map<Path, bool>

  function Init(p: Path): Path
    requires p != []
  {
    p[..|p| - 1]
  }

  function Last(p: Path): Name
    requires p != []
  {
    p[|p| - 1]
  }

  lemma InitLast(p: Path, n: Name)
    ensures Init(p + [n]) == p && Last(p + [n]) == n
    ensures p != [] ==> p == Init(p) + [Last(p)]
  {
  }

  /** The node behind the first `j` ones of the directory `p`. */
  ghost function NodeAfter(at: Tree, p: Path, names: seq<Name>, j: nat): int
  {
    if j < |names| && p + [names[j]] in at then at[p + [names[j]]] else NULL
  }

  ghost predicate InUse(blocks: Blocks, at: Tree, p: Path)
  {
    p in at && at[p] < |blocks| && blocks[at[p]].Used?
  }

  ghost predicate KidOk(blocks: Blocks, at: Tree, p: Path, names: seq<Name>, j: nat)
    requires j < |names|
  {
    && NameOk(names[j]) && InUse(blocks, at, p + [names[j]])
    && blocks[at[p + [names[j]]]].value.next == NodeAfter(at, p, names, j + 1)
  }

  ghost predicate DirOk(blocks: Blocks, at: Tree, kids: Kids, p: Path)
  {
    && InUse(blocks, at, p) && p in kids
    && var node, names := blocks[at[p]].value, kids[p];
    && (!node.isDir ==> names == [])
    && node.first == NodeAfter(at, p, names, 0)
    && (forall i, j :: 0 <= i < j < |names| ==> names[i] != names[j])
    && (forall j {:trigger KidOk(blocks, at, p, names, j)} :: 0 <= j < |names| ==> KidOk(blocks, at, p, names, j))
    && (p != [] ==> Init(p) in at && Init(p) in kids && Last(p) in kids[Init(p)] && node.name == Last(p))
  }

  ghost predicate Shape(blocks: Blocks, at: Tree, kids: Kids)
  {
    && [] in at && InUse(blocks, at, []) && blocks[at[[]]].value.isDir
    && (forall p {:trigger DirOk(blocks, at, kids, p)} :: p in at ==> DirOk(blocks, at, kids, p))
    && (forall p, q {:trigger at[p], at[q]} :: p in at && q in at && at[p] == at[q] ==> p == q)
  }

  ghost function IsDir(blocks: Blocks, at: Tree, p: Path): bool
    requires InUse(blocks, at, p)
  {
    blocks[at[p]].value.isDir
  }

  ghost function FlatOf(blocks: Blocks, at: Tree): (f: Flat)
    requires forall p :: p in at ==> InUse(blocks, at, p)
    ensures f.Keys == at.Keys
  {
    map p | p in at :: IsDir(blocks, at, p)
  }

  // ----- What the shape gives ------------------------------------------------------------------

  /** A directory's list holds exactly the existing paths one below it, so siblings differ. */
  lemma ListedIffExists(blocks: Blocks, at: Tree, kids: Kids, p: Path, n: Name)
    requires Shape(blocks, at, kids) && p in at
    ensures DirOk(blocks, at, kids, p) && (n in kids[p] <==> p + [n] in at)
  {
    assert DirOk(blocks, at, kids, p);
    InitLast(p, n);
    if p + [n] in at {
      assert DirOk(blocks, at, kids, p + [n]);
    }
    if n in kids[p] {
      var j: nat :| j < |kids[p]| && kids[p][j] == n;
      assert KidOk(blocks, at, p, kids[p], j);
    }
  }

  /** With a path all paths above it exist, and they are directories. */
  lemma {:induction false} AboveExists(blocks: Blocks, at: Tree, kids: Kids, p: Path, k: nat)
    requires Shape(blocks, at, kids) && p in at && k <= |p|
    ensures InUse(blocks, at, p[..k]) && (k < |p| ==> IsDir(blocks, at, p[..k]))
    decreases |p|
  {
    assert DirOk(blocks, at, kids, p);
    if k == |p| {
      assert p[..k] == p;
    } else {
      assert DirOk(blocks, at, kids, Init(p));
      if k < |p| - 1 {
        AboveExists(blocks, at, kids, Init(p), k);
        assert Init(p)[..k] == p[..k];
      }
    }
  }

  // ----- Lookup --------------------------------------------------------------------------------

  /** Where the lookup of `comps` below `q` stands: at the `j`-th node of the directory that the
      first `i` components lead to. */
  ghost predicate Walking(blocks: Blocks, at: Tree, kids: Kids, q: Path, comps: Path, i: nat, j: nat, curr: int)
  {
    && i < |comps|
    && var d := q + comps[..i];
    && d in at && d in kids && j <= |kids[d]|
    && curr == NodeAfter(at, d, kids[d], j)
    && (forall k :: 0 <= k < j ==> kids[d][k] != comps[i])
  }

  lemma StepInList(blocks: Blocks, at: Tree, kids: Kids, q: Path, comps: Path, i: nat, j: nat, curr: int)
    requires Shape(blocks, at, kids) && Walking(blocks, at, kids, q, comps, i, j, curr)
    ensures var d := q + comps[..i];
            && |kids[d]| >= j
            && (curr == NULL ==> j == |kids[d]| && d + [comps[i]] !in at)
            && (curr != NULL ==>
                  && j < |kids[d]| && KidOk(blocks, at, d, kids[d], j) && curr == at[d + [kids[d][j]]]
                  && blocks[curr].value.name == kids[d][j]
                  && (blocks[curr].value.name != comps[i] ==>
                        Walking(blocks, at, kids, q, comps, i, j + 1, blocks[curr].value.next)))
  {
    var d := q + comps[..i];
    ListedIffExists(blocks, at, kids, d, comps[i]);
    if j < |kids[d]| {
      assert KidOk(blocks, at, d, kids[d], j);
      InitLast(d, kids[d][j]);
      assert DirOk(blocks, at, kids, d + [kids[d][j]]);
    }
  }

  lemma PathPrefix(q: Path, comps: Path, i: nat)
    requires i < |comps|
    ensures q + comps[..i + 1] == q + comps[..i] + [comps[i]] == (q + comps)[..|q| + i + 1]
  {
  }

  lemma StepDown(blocks: Blocks, at: Tree, kids: Kids, q: Path, comps: Path, i: nat)
    requires Shape(blocks, at, kids) && i + 1 < |comps| && q + comps[..i] + [comps[i]] in at
    ensures var d := q + comps[..i] + [comps[i]];
            && DirOk(blocks, at, kids, d)
            && Walking(blocks, at, kids, q, comps, i + 1, 0, blocks[at[d]].value.first)
            && (!blocks[at[d]].value.isDir ==> q + comps !in at)
  {
    var d := q + comps[..i] + [comps[i]];
    PathPrefix(q, comps, i);
    assert DirOk(blocks, at, kids, d);
    if q + comps in at {
      AboveExists(blocks, at, kids, q + comps, |q| + i + 1);
    }
  }

  lemma DeadEnd(blocks: Blocks, at: Tree, kids: Kids, q: Path, comps: Path, i: nat)
    requires Shape(blocks, at, kids) && i < |comps| && q + comps[..i] + [comps[i]] !in at
    ensures q + comps !in at
  {
    if q + comps in at {
      OnTheWay(blocks, at, kids, q, comps, i);
    }
  }

  lemma OnTheWay(blocks: Blocks, at: Tree, kids: Kids, q: Path, comps: Path, i: nat)
    requires Shape(blocks, at, kids) && i < |comps| && q + comps in at
    ensures q + comps[..i] + [comps[i]] in at
  {
    PathPrefix(q, comps, i);
    AboveExists(blocks, at, kids, q + comps, |q| + i + 1);
  }

  // ----- Adding a node -------------------------------------------------------------------------

  /** The pool after `b` has been filled with the new node and linked behind the last sibling. */
  ghost function WithNode(blocks: Blocks, at: Tree, kids: Kids, d: Path, n: Name, isDir: bool, b: nat): Blocks
    requires DirOk(blocks, at, kids, d) && b < |blocks|
  {
    var filled := blocks[b := Used(Node(NULL, NULL, isDir, n))];
    var names := kids[d];
    if names == [] then
      filled[at[d] := Used(blocks[at[d]].value.(first := b))]
    else
      assert KidOk(blocks, at, d, names, |names| - 1);
      var l := at[d + [names[|names| - 1]]];
      filled[l := Used(blocks[l].value.(next := b))]
  }

  ghost function KidsWith(kids: Kids, d: Path, n: Name): Kids
    requires d in kids
  {
    kids[d := kids[d] + [n]][d + [n] := []]
  }

  /** The node of `p` after the new node has been linked in directory `d`. */
  ghost function Relinked(node: Node, d: Path, names: seq<Name>, b: nat, p: Path): Node
  {
    node.(first := if p == d && names == [] then b else node.first,
          next := if names != [] && p == d + [names[|names| - 1]] then b else node.next)
  }

  lemma WithNodeAt(blocks: Blocks, at: Tree, kids: Kids, d: Path, n: Name, isDir: bool, b: nat, p: Path)
    requires Shape(blocks, at, kids) && d in at && DirOk(blocks, at, kids, d) && p in at
    requires b < |blocks| && blocks[b].Link?
    ensures var new' := WithNode(blocks, at, kids, d, n, isDir, b);
            && |new'| == |blocks|
            && new'[b] == Used(Node(NULL, NULL, isDir, n))
            && InUse(blocks, at, p) && at[p] != b
            && new'[at[p]] == Used(Relinked(blocks[at[p]].value, d, kids[d], b, p))
  {
    var names := kids[d];
    assert DirOk(blocks, at, kids, p);
    if names != [] {
      assert KidOk(blocks, at, d, names, |names| - 1);
      InitLast(d, names[|names| - 1]);
    }
  }

  lemma AddKeepsShape(blocks: Blocks, at: Tree, kids: Kids, d: Path, n: Name, isDir: bool, b: nat)
    requires Shape(blocks, at, kids) && d in at && DirOk(blocks, at, kids, d)
    requires IsDir(blocks, at, d) && NameOk(n) && n !in kids[d]
    requires b < |blocks| && blocks[b].Link?
    ensures Shape(WithNode(blocks, at, kids, d, n, isDir, b), at[d + [n] := b], KidsWith(kids, d, n))
    ensures d + [n] !in at
  {
    var new', at', kids' := WithNode(blocks, at, kids, d, n, isDir, b), at[d + [n] := b], KidsWith(kids, d, n);
    ListedIffExists(blocks, at, kids, d, n);
    forall p | p in at'
      ensures DirOk(new', at', kids', p)
    {
      if p in at {
        AddKeepsDir(blocks, at, kids, d, n, isDir, b, p);
      } else {
        AddedIsOk(blocks, at, kids, d, n, isDir, b);
      }
    }
    forall p | p in at
      ensures at[p] != b
    {
      WithNodeAt(blocks, at, kids, d, n, isDir, b, p);
    }
    WithNodeAt(blocks, at, kids, d, n, isDir, b, []);
  }

  lemma AddedIsOk(blocks: Blocks, at: Tree, kids: Kids, d: Path, n: Name, isDir: bool, b: nat)
    requires Shape(blocks, at, kids) && d in at && DirOk(blocks, at, kids, d)
    requires NameOk(n) && n !in kids[d] && d + [n] !in at
    requires b < |blocks| && blocks[b].Link?
    ensures DirOk(WithNode(blocks, at, kids, d, n, isDir, b), at[d + [n] := b], KidsWith(kids, d, n), d + [n])
  {
    WithNodeAt(blocks, at, kids, d, n, isDir, b, d);
    hide WithNode;
    InitLast(d, n);
  }

  lemma AddKeepsDir(blocks: Blocks, at: Tree, kids: Kids, d: Path, n: Name, isDir: bool, b: nat, p: Path)
    requires Shape(blocks, at, kids) && d in at && DirOk(blocks, at, kids, d) && p in at
    requires IsDir(blocks, at, d) && NameOk(n) && n !in kids[d] && d + [n] !in at
    requires b < |blocks| && blocks[b].Link?
    ensures DirOk(WithNode(blocks, at, kids, d, n, isDir, b), at[d + [n] := b], KidsWith(kids, d, n), p)
  {
    var new', at', kids' := WithNode(blocks, at, kids, d, n, isDir, b), at[d + [n] := b], KidsWith(kids, d, n);
    assert DirOk(blocks, at, kids, p);
    WithNodeAt(blocks, at, kids, d, n, isDir, b, p);
    ChildApart(at, d, n, p);
    forall j | 0 <= j < |kids'[p]|
      ensures KidOk(new', at', p, kids'[p], j)
    {
      AddKeepsKid(blocks, at, kids, d, n, isDir, b, p, j);
    }
    if kids[p] != [] {
      assert KidOk(blocks, at, p, kids[p], 0);
    }
    if p != [] {
      ChildApart(at, d, n, Init(p));
      assert kids'[Init(p)] == kids[Init(p)] || kids'[Init(p)] == kids[Init(p)] + [n];
    }
    hide WithNode, KidOk, Shape;
  }

  lemma ChildApart(at: Tree, d: Path, n: Name, p: Path)
    requires p in at && d + [n] !in at
    ensures d + [n] != p && d + [n] != d
  {
  }

  lemma AddKeepsKid(blocks: Blocks, at: Tree, kids: Kids, d: Path, n: Name, isDir: bool, b: nat, p: Path, j: nat)
    requires Shape(blocks, at, kids) && d in at && DirOk(blocks, at, kids, d) && p in at && DirOk(blocks, at, kids, p)
    requires NameOk(n) && n !in kids[d] && d + [n] !in at
    requires b < |blocks| && blocks[b].Link?
    requires p in KidsWith(kids, d, n) && j < |KidsWith(kids, d, n)[p]|
    ensures KidOk(WithNode(blocks, at, kids, d, n, isDir, b), at[d + [n] := b], p, KidsWith(kids, d, n)[p], j)
  {
    var names, names' := kids[p], KidsWith(kids, d, n)[p];
    InitLast(d, n);
    WithNodeAt(blocks, at, kids, d, n, isDir, b, p);
    assert names' == if p == d then names + [n] else names by {
      assert d + [n] != p;
    }
    if j < |names| {
      assert KidOk(blocks, at, p, names, j);
      InitLast(p, names[j]);
      WithNodeAt(blocks, at, kids, d, n, isDir, b, p + [names[j]]);
      if j + 1 < |names| {
        assert KidOk(blocks, at, p, names, j + 1);
      }
      KeptKid(WithNode(blocks, at, kids, d, n, isDir, b), blocks, at, d, kids[d], p, names, n, b, j);
      assert KidOk(WithNode(blocks, at, kids, d, n, isDir, b), at[d + [n] := b], p, names', j);
    }
  }

  /** The link to the next sibling: only the last one's changes. */
  lemma KeptKid(new': Blocks, blocks: Blocks, at: Tree, d: Path, dirNames: seq<Name>, p: Path, names: seq<Name>,
                n: Name, b: nat, j: nat)
    requires j < |names| && KidOk(blocks, at, p, names, j) && d + [n] !in at && n !in dirNames
    requires p == d ==> names == dirNames
    requires forall i, k :: 0 <= i < k < |names| ==> names[i] != names[k]
    requires j + 1 < |names| ==> KidOk(blocks, at, p, names, j + 1)
    requires var c := at[p + [names[j]]];
             c < |new'| && new'[c] == Used(Relinked(blocks[c].value, d, dirNames, b, p + [names[j]]))
    ensures KidOk(new', at[d + [n] := b], p, if p == d then names + [n] else names, j)
  {
    var at', names' := at[d + [n] := b], if p == d then names + [n] else names;
    SamePath(p, names[j], d, n);
    if dirNames != [] {
      SamePath(p, names[j], d, dirNames[|dirNames| - 1]);
    }
    if j + 1 < |names| {
      assert names'[j + 1] == names[j + 1];
      SamePath(p, names[j + 1], d, n);
      if p == d {
        assert names[j] != names[|names| - 1];
      }
    } else if p == d {
      assert names'[j + 1] == n;
    }
  }

  lemma SamePath(p: Path, n: Name, q: Path, m: Name)
    ensures p + [n] == q + [m] <==> p == q && n == m
  {
    InitLast(p, n);
    InitLast(q, m);
  }
}
