/** src/ramfs.c: the file system, its nodes in a pool and its files' data in byte buffers. */
module RamFsModel {
  import opened Common
  import opened Buffers
  import opened Pools
  import opened Paths
  import opened RamFiles
  import opened FsTree
  import opened FsSpec

  const RAM_FS_MAX_NODES_NUM := 10000

  class RamFs {
    const pool: Pool<Node>
    var files: map<nat, File>
    const root: nat
    ghost var at: Tree
    ghost var kids: Kids

    ghost predicate Ready()
      reads `at, `kids, pool, pool.blocks
    {
      && pool.Valid() && Shape(pool.blocks[..], at, kids)
      && at[[]] == root
      && |at| + |pool.list| == pool.blocks.Length
    }

    ghost function Flat(): (f: Flat)
      reads `at, `kids, pool, pool.blocks
      requires Ready()
      ensures f.Keys == at.Keys
    {
      AllInUse(pool.blocks[..], at, kids);
      FlatOf(pool.blocks[..], at)
    }

    ghost predicate FilesOk()
      reads `files, files.Values
    {
      Apart(files)
    }

    ghost predicate Valid()
      reads this, pool, pool.blocks, files.Values
    {
      Ready() && FilesOk() && KindsOk(Flat(), at, files.Keys)
    }

    /** The contents of the files, by node. */
    ghost function Stored(): (m: map<nat, seq<Byte>>)
      reads `files, files.Values, set i | i in files :: files[i].dat
      requires FilesOk()
      ensures m.Keys == files.Keys
    {
      ContentsIn(files)
    }

    /** The contents of the files, by path. */
    ghost function Data(): map<Path, seq<Byte>>
      reads `at, `files, files.Values, set i | i in files :: files[i].dat
      requires FilesOk()
    {
      DataOf(at, Stored())
    }

    /** `ram_fs_new` */
    constructor ()
      ensures Valid() && fresh(pool) && fresh(pool.blocks) && files == map[]
      ensures pool.blocks.Length == RAM_FS_MAX_NODES_NUM && Flat() == map[[] := true]
    {
      var nodes := new Pool<Node>(RAM_FS_MAX_NODES_NUM, Node(NULL, NULL, false, []));
      var dir := nodes.Alloc(Node(NULL, NULL, true, []));
      pool, root, files := nodes, dir, map[];
      at, kids := map[[] := dir], map[[] := []];
      new;
      hide Shape, FreeList, FlatOf;
      RootAlone(pool.blocks[..], dir);
    }

    // ----- Lookup ------------------------------------------------------------------------------

    /** `ram_fs_node_lookup_at`, from the first node in the directory `q`. */
    method LookupAt(first: int, comps: Path, ghost q: Path) returns (r: int)
      requires Ready() && comps != [] && InUse(pool.blocks[..], at, q) && first == pool.blocks[at[q]].value.first
      ensures r == if q + comps in at then at[q + comps] else NULL
    {
      hide Shape, FreeList, DirOk;
      var curr, i := first, 0;
      ghost var j := 0;
      StartWalking(pool.blocks[..], at, kids, q, comps);
      while curr != NULL
        invariant Walking(pool.blocks[..], at, kids, q, comps, i, j, curr)
        decreases |comps| - i, |kids[q + comps[..i]]| - j
      {
        StepInList(pool.blocks[..], at, kids, q, comps, i, j, curr);
        var node := pool.blocks[curr].value;
        if node.name == comps[i] {
          PathPrefix(q, comps, i);
          if i + 1 == |comps| {
            assert comps[..i + 1] == comps;
            return curr;
          }
          StepDown(pool.blocks[..], at, kids, q, comps, i);
          if node.isDir {
            curr, i, j := node.first, i + 1, 0;
          } else {
            return NULL;
          }
        } else {
          curr, j := node.next, j + 1;
        }
      }
      StepInList(pool.blocks[..], at, kids, q, comps, i, j, curr);
      DeadEnd(pool.blocks[..], at, kids, q, comps, i);
      return NULL;
    }

    /** `ram_fs_node_lookup` */
    method Lookup(node: nat, comps: Path, ghost q: Path) returns (r: int)
      requires Ready() && q in at && at[q] == node
      ensures r == if q + comps in at then at[q + comps] else NULL
    {
      AllInUse(pool.blocks[..], at, kids);
      if |comps| == 0 {
        assert q + comps == q;
        return node;
      }
      r := LookupAt(pool.blocks[node].value.first, comps, q);
    }

    // ----- Creation ----------------------------------------------------------------------------

    /** The search for conflicts: whether the directory `d` has an entry `name`. */
    method HasChild(first: int, name: Name, ghost d: Path) returns (found: bool)
      requires Ready() && InUse(pool.blocks[..], at, d) && first == pool.blocks[at[d]].value.first
      ensures found <==> d + [name] in at
    {
      hide Shape, FreeList;
      ghost var blocks, j := pool.blocks[..], 0;
      DirIsOk(blocks, at, kids, d);
      ListedIffExists(blocks, at, kids, d, name);
      var curr := first;
      while curr != NULL
        invariant j <= |kids[d]| && curr == NodeAfter(at, d, kids[d], j)
        invariant name !in kids[d][..j]
        decreases |kids[d]| - j
      {
        KidNamed(blocks, at, kids, d, j);
        if pool.blocks[curr].value.name == name {
          return true;
        }
        curr, j := pool.blocks[curr].value.next, j + 1;
      }
      EndOfList(blocks, at, kids, d, j);
      assert kids[d][..j] == kids[d];
      return false;
    }

    /** Link the filled node `node` behind the last entry of the directory `d`. `was` is the pool
        before the node was allocated. */
    method Append(parent: nat, node: nat, name: Name, isDir: bool, ghost d: Path, ghost was: Blocks)
      requires pool.Valid() && Shape(was, at, kids) && DirOk(was, at, kids, d) && at[d] == parent
      requires node < |was| && was[node].Link?
      requires pool.blocks[..] == was[node := Used(Node(NULL, NULL, isDir, name))]
      modifies pool.blocks
      ensures pool.Valid() && pool.blocks[..] == WithNode(was, at, kids, d, name, isDir, node)
    {
      hide Shape, FreeList;
      ghost var names := kids[d];
      if pool.blocks[parent].value.first != NULL {
        var curr := pool.blocks[parent].value.first;
        ghost var j := 0;
        KidNamed(was, at, kids, d, 0);
        while pool.blocks[curr].value.next != NULL
          modifies {}
          invariant j < |names| && curr == NodeAfter(at, d, names, j) && KidOk(was, at, d, names, j)
          invariant 0 <= curr < |was| && was[curr].Used?
          decreases |names| - j
        {
          KidNamed(was, at, kids, d, j + 1);
          curr, j := pool.blocks[curr].value.next, j + 1;
        }
        EndOfList(was, at, kids, d, j + 1);
        Fill(curr, pool.blocks[curr].value.(next := node));
      } else {
        EndOfList(was, at, kids, d, 0);
        Fill(parent, pool.blocks[parent].value.(first := node));
      }
    }

    /** The end of `ram_fs_create_common`: make `name` in the directory `d`, whose node is `parent`. */
    method AddChild(parent: nat, name: Name, isDir: bool, ghost d: Path) returns (r: Result<nat>)
      requires Ready() && d in at && at[d] == parent && NameOk(name)
      modifies pool, pool.blocks, this`at, this`kids
      ensures Ready() && Extends(old(at), at)
      ensures ChildMade(old(Flat()), Flat(), at, d, name, isDir, old(|pool.list|), r)
    {
      hide Shape, FreeList, DirOk, WithNode, KidsWith, Extends, FlatOf, NameOk;
      SameExtends(at);
      ghost var was := pool.blocks[..];
      AllInUse(was, at, kids);
      DirIsOk(was, at, kids, d);
      ListedIffExists(was, at, kids, d, name);
      FlatAt(was, at, d);
      if !pool.blocks[parent].value.isDir {
        return Err(ENOTDIR);
      }
      var conflict := HasChild(pool.blocks[parent].value.first, name, d);
      if conflict {
        return Err(EEXIST);
      }
      r := LinkNew(parent, name, isDir, d);
    }

    /** A new node for `name`, behind the last one in its directory. */
    method LinkNew(parent: nat, name: Name, isDir: bool, ghost d: Path) returns (r: Result<nat>)
      requires Ready() && d in at && at[d] == parent && NameOk(name)
      requires d in kids && DirOk(pool.blocks[..], at, kids, d) && name !in kids[d] && d + [name] !in at
      requires InUse(pool.blocks[..], at, d) && pool.blocks[parent].value.isDir
      modifies pool, pool.blocks, this`at, this`kids
      ensures Ready() && Extends(old(at), at)
      ensures if old(pool.list) == [] then r == Err(ENOMEM) && Flat() == old(Flat())
              else d + [name] in at && r == Ok(at[d + [name]]) && Flat() == old(Flat())[d + [name] := isDir]
    {
      hide Shape, FreeList, DirOk, WithNode, KidsWith, Extends, FlatOf, NameOk;
      SameExtends(at);
      ghost var was := pool.blocks[..];
      var node := pool.Alloc(Node(NULL, NULL, false, []));
      if node == NULL {
        return Err(ENOMEM);
      }
      FreeIsLink(was, old(pool.head), old(pool.list), node);
      AddKeepsShape(was, at, kids, d, name, isDir, node);
      WithNodeFlat(was, at, kids, d, name, isDir, node);
      Fill(node, Node(NULL, NULL, isDir, name));
      Append(parent, node, name, isDir, d, was);
      ExtendsOne(at, d + [name], node);
      at, kids := at[d + [name] := node], KidsWith(kids, d, name);
      return Ok(node);
    }

    /** `ram_fs_create_common`: make a node below the directory `q`, whose node is `node`. Of the scratch
        arena, `used` bytes are in use; the call crashes exactly if the rest does not suffice. */
    method CreateCommon(node: nat, path: seq<Byte>, isDir: bool, recursive: bool, used: nat, ghost q: Path)
      returns (r: Result<nat>)
      requires Ready() && q in at && at[q] == node
      modifies pool, pool.blocks, this`at, this`kids
      ensures Ready() && Extends(old(at), at)
      ensures match Parse(path)
              case Ok(c) =>
                if ScratchOk(old(Flat()), q, c, StrippedLen(path), recursive, used)
                then Outcome(old(Flat()), Flat(), at, q, c, isDir, recursive, old(|pool.list|), r)
                else r == Crashed && at == old(at) && Flat() == old(Flat())
              case _ => r == Parse(path).Failure() && at == old(at) && Flat() == old(Flat())
      decreases |Split(path)|
    {
      hide Shape, FreeList, Split, DirOk, Outcome, Print, Extends, PathOk, StrippedLen, AfterParse, AfterPrint;
      SameExtends(at);
      var parsed, used' := PathNameParse(path, used);
      if !parsed.Ok? {
        return parsed.Failure();
      }
      var c := parsed.value;
      ghost var f, free: nat := Flat(), |pool.list|;
      if |c| == 0 {
        RootExists(f, at, q, isDir, recursive, free);
        return Err(EEXIST);
      }
      ParentParses(path, c);
      var name, above := c[|c| - 1], c[..|c| - 1];
      var parent := Lookup(node, above, q);
      ParentThere(pool.blocks[..], at, kids, q, c);
      if parent != NULL {
        r := AddChild(parent, name, isDir, q + above);
        InParent(f, Flat(), at, q, c, isDir, recursive, free, r);
        return r;
      }
      if !recursive {
        NoParent(f, at, q, c, isDir, free);
        return Err(ENOENT);
      }
      var parentPath;
      parentPath, used' := PathNameToStr(above, used');
      if !parentPath.Ok? {
        return Crashed;
      }
      var made := CreateCommon(node, parentPath.value, true, true, used', q);
      ghost var f1, at1, left := Flat(), at, |pool.list|;
      if !made.Ok? {
        if ScratchOk(f, q, above, StrippedLen(parentPath.value), true, used') {
          ParentNotMade(f, f1, at1, q, c, isDir, free, made);
        }
        return made;
      }
      parent := made.value;
      Made(f, f1, at1, q, above, true, true, free, made);
      r := AddChild(parent, name, isDir, q + above);
      AfterParent(f, f1, at1, Flat(), at, q, c, isDir, free, left, made, r);
      ExtendsFurther(old(at), at1, at);
    }

    // ----- Files -------------------------------------------------------------------------------

    /** `ram_fs_create_dir` */
    method CreateDir(node: nat, path: seq<Byte>, recursive: bool, ghost q: Path) returns (r: Result<nat>)
      requires Valid() && q in at && at[q] == node
      modifies pool, pool.blocks, this`at, this`kids
      ensures Valid() && Extends(old(at), at) && Data() == old(Data())
      ensures match Parse(path)
              case Ok(c) =>
                if ScratchOk(old(Flat()), q, c, StrippedLen(path), recursive, 0) then
                  && Outcome(old(Flat()), Flat(), at, q, c, true, recursive, old(|pool.list|), r)
                  && (r.Ok? ==> PathMade(old(Flat()), Flat(), q + c, true))
                else r == Crashed && at == old(at) && Flat() == old(Flat())
              case _ => r == Parse(path).Failure() && at == old(at) && Flat() == old(Flat())
    {
      hide Shape, FreeList, Outcome, Parse, Extends, KindsOk, DataOf, Stored, FilesOk, FlatOf, PathMade,
           ScratchOk;
      ghost var f, free: nat, before := Flat(), |pool.list|, at;
      IsClosed();
      r := CreateCommon(node, path, true, recursive, 0, q);
      OneNodeOnePath(pool.blocks[..], at, kids);
      if Parse(path).Ok? && ScratchOk(f, q, Parse(path).value, StrippedLen(path), recursive, 0) {
        DirMade(f, Flat(), before, at, q, Parse(path).value, recursive, free, r, Stored());
      }
    }

    /** `ram_fs_create_file`. `made` is the outcome for the new node, and `memory` tells whether there is
        memory for its first buffer; if not, the file stays, without data. */
    method CreateFile(node: nat, path: seq<Byte>, recursive: bool, memory: bool, ghost q: Path)
      returns (r: Result<nat>, ghost made: Result<nat>)
      requires Valid() && q in at && at[q] == node
      modifies pool, pool.blocks, this`at, this`kids, this`files
      ensures Valid() && Extends(old(at), at)
      ensures r == if made.Ok? && !memory then Err(ENOMEM) else made
      ensures match Parse(path)
              case Ok(c) =>
                && Data() == (if r.Ok? then old(Data())[q + c := []] else old(Data()))
                && if ScratchOk(old(Flat()), q, c, StrippedLen(path), recursive, 0) then
                     && Outcome(old(Flat()), Flat(), at, q, c, false, recursive, old(|pool.list|), made)
                     && (made.Ok? ==> PathMade(old(Flat()), Flat(), q + c, false))
                   else made == Crashed && at == old(at) && Flat() == old(Flat())
              case _ => made == Parse(path).Failure() && at == old(at) && Flat() == old(Flat()) && Data() == old(Data())
      ensures files == if r.Ok? && r.value in files then old(files)[r.value := files[r.value]] else old(files)
      ensures r.Ok? ==>
                && Parse(path).Ok? && r.value in files && fresh(files[r.value]) && fresh(files[r.value].dat)
                && files[r.value].dat.Length == DEFAULT_FILE_SIZE
    {
      hide Shape, FreeList, Outcome, Parse, Extends, KindsOk, DataOf, Stored, FilesOk, FlatOf, PathMade,
           Closed, ScratchOk;
      ghost var f, free: nat, before, stored := Flat(), |pool.list|, at, Stored();
      IsClosed();
      r := CreateCommon(node, path, false, recursive, 0, q);
      made := r;
      OneNodeOnePath(pool.blocks[..], at, kids);
      if Parse(path).Ok? && ScratchOk(f, q, Parse(path).value, StrippedLen(path), recursive, 0) {
        FileMade(f, Flat(), before, at, q, Parse(path).value, recursive, free, r, memory, stored);
      }
      if !r.Ok? {
        return r, made;
      }
      if !memory {
        return Err(ENOMEM), made;
      }
      GiveData(r.value);
    }

    /** The part of `ram_fs_create_file` that gives the new node its buffer. */
    method GiveData(node: nat)
      requires FilesOk() && node !in files
      modifies this`files
      ensures FilesOk() && Stored() == old(Stored())[node := []]
      ensures node in files && files == old(files)[node := files[node]]
      ensures fresh(files[node]) && fresh(files[node].dat) && files[node].dat.Length == DEFAULT_FILE_SIZE
    {
      hide Apart, ContentsIn;
      ghost var was, stored := files, Stored();
      var file := new File();
      assert Apart(was) && ContentsIn(was) == stored;
      FileJoins(was, node, file);
      files := files[node := file];
    }

    /** `ram_fs_open` */
    method Open(node: nat, path: seq<Byte>, ghost q: Path) returns (r: Result<nat>)
      requires Ready() && q in at && at[q] == node
      ensures match Parse(path)
              case Ok(c) =>
                r == if StrippedLen(path) > 1819 then Crashed else if q + c in at then Ok(at[q + c]) else Err(ENOENT)
              case _ => r == Parse(path).Failure()
    {
      ParseFits(StrippedLen(path));
      var parsed, _ := PathNameParse(path, 0);
      if !parsed.Ok? {
        return parsed.Failure();
      }
      if |parsed.value| == 0 {
        assert q + parsed.value == q;
        return Ok(node);
      }
      var found := Lookup(node, parsed.value, q);
      if found == NULL {
        return Err(ENOENT);
      }
      return Ok(found);
    }

    /** `ram_fs_read`. A file without data reads like an empty one; `data` is what the file holds, and `got`
        what is appended of it. */
    method Read(node: nat, dest: ByteBuf, offset: int, ghost p: Path)
      returns (r: Result<nat>, ghost data: seq<Byte>, ghost got: seq<Byte>)
      requires Valid() && p in at && at[p] == node
      requires dest.Valid() && forall i :: i in files ==> files[i].dat != dest.dat
      modifies dest, dest.dat
      ensures Valid() && dest.Valid() && Data() == old(Data())
      ensures data == FileAt(Data(), p)
      ensures dest.Contents() == old(dest.Contents()) + got
      ensures var room := dest.dat.Length - old(dest.len);
              if DirAt(Flat(), p) then r == Err(EINVAL) && got == []
              else if 0 <= offset <= |data| then
                && |got| == Min(|data| - offset, room) && r == Ok(|got|)
                && got == data[offset..offset + |got|]
              else r == (if offset > 0 then Err(EINVAL) else if room == 0 then Ok(0) else Crashed) && got == []
    {
      hide Shape, FreeList, KindsOk, DataOf, FlatOf;
      NodeFacts(p);
      data, got := FileAt(Data(), p), [];
      if pool.blocks[node].value.isDir {
        return Err(EINVAL), data, got;
      }
      if node !in files {
        return if offset > 0 then Err(EINVAL)
               else if offset == 0 || dest.len == dest.dat.Length then Ok(0) else Crashed, data, got;
      }
      r := files[node].Read(dest, offset);
      if 0 <= offset <= |data| {
        got := data[offset..offset + r.value];
      }
    }

    ghost function CapacityOf(node: nat): nat
      reads `files, if node in files then {files[node]} else {}
    {
      if node in files then files[node].dat.Length else 0
    }

    /** `ram_fs_write`. On a file without data its assertion fails. */
    method Write(node: nat, view: seq<Byte>, offset: int, memory: bool, ghost p: Path) returns (r: Result<nat>)
      requires Valid() && p in at && at[p] == node
      modifies if node in files then {files[node], files[node].dat} else {}
      ensures Valid() && Flat() == old(Flat())
      ensures r == if DirAt(Flat(), p) then Err(EINVAL)
                   else if p !in old(Data()) then Crashed
                   else WriteResult(|FileAt(old(Data()), p)|, old(CapacityOf(node)), |view|, offset, memory)
      ensures p in old(Data()) && 0 <= offset <= |old(Data())[p]| ==>
                (|view| + offset <= old(CapacityOf(node)) || memory ==> r == Ok(|view|))
      ensures node in files ==> files[node].dat == old(files[node].dat) || fresh(files[node].dat)
      ensures p in old(Data()) && offset > |old(Data())[p]| ==> r == Err(EINVAL)
      ensures Data() ==
                if r.Ok? && view != [] then old(Data())[p := Spliced(FileAt(old(Data()), p), view, offset)]
                else old(Data())
    {
      hide Shape, FreeList, KindsOk, DataOf, FlatOf, Spliced, FilesOk, Stored;
      NodeFacts(p);
      if pool.blocks[node].value.isDir {
        return Err(EINVAL);
      }
      if node !in files {
        return Crashed;
      }
      OneNodeOnePath(pool.blocks[..], at, kids);
      ghost var stored := Stored();
      r := WriteFile(node, view, offset, memory);
      if r.Ok? && view != [] {
        WrittenData(at, stored, p, Spliced(stored[node], view, offset));
      }
    }

    /** The effect of a write on the files. */
    method WriteFile(node: nat, view: seq<Byte>, offset: int, memory: bool) returns (r: Result<nat>)
      requires FilesOk() && node in files
      modifies files[node], files[node].dat
      ensures FilesOk() && r == WriteResult(|old(Stored())[node]|, old(CapacityOf(node)), |view|, offset, memory)
      ensures files[node].dat == old(files[node].dat) || fresh(files[node].dat)
      ensures Stored() ==
                if r.Ok? && view != [] then old(Stored())[node := Spliced(old(Stored())[node], view, offset)]
                else old(Stored())
    {
      hide Spliced;
      ghost var stored, data := Stored(), files[node].Contents();
      r := files[node].Write(view, offset, memory);
      assert Stored() == if r.Ok? && view != [] then stored[node := Spliced(data, view, offset)] else stored;
    }

    /** What has been written is read back, as much of it as there is room for. */
    method WriteThenRead(node: nat, view: seq<Byte>, offset: nat, memory: bool, dest: ByteBuf, ghost p: Path)
      returns (w: Result<nat>, r: Result<nat>)
      requires Valid() && p in at && at[p] == node && node in files
      requires dest.Valid() && forall i :: i in files ==> files[i].dat != dest.dat
      modifies files[node], files[node].dat, dest, dest.dat
      ensures Valid() && dest.Valid()
      ensures w.Ok? ==>
                && w.value == |view| && r.Ok? && r.value >= Min(|view|, dest.dat.Length - old(dest.len))
                && |dest.Contents()| == |old(dest.Contents())| + r.value
                && var n := Min(r.value, |view|);
                   dest.Contents()[..|old(dest.Contents())| + n] == old(dest.Contents()) + view[..n]
    {
      hide Spliced, DataOf, FlatOf, Shape, KindsOk, FreeList, Apart, ContentsIn;
      NodeFacts(p);
      ghost var data, before := Data()[p], dest.Contents();
      w := Write(node, view, offset, memory, p);
      ghost var now := Data()[p];
      assert w.Ok? ==> offset <= |now| by {
        if w.Ok? && view != [] {
          WrittenAndKept(data, view, offset);
        }
      }
      ghost var content, got;
      r, content, got := Read(node, dest, offset, p);
      if w.Ok? {
        WrittenIsRead(data, view, offset, now, before, r.value);
      }
    }

    /** With a path, all paths above it exist. */
    lemma IsClosed()
      requires Ready()
      ensures Closed(Flat())
    {
      ShapeIsClosed(pool.blocks[..], at, kids);
    }

    lemma RootFacts()
      requires Ready()
      ensures [] in at && at[[]] == root && [] in Flat()
      ensures |Flat()| + |pool.list| == pool.blocks.Length
    {
      assert |Flat()| == |Flat().Keys| == |at.Keys| == |at|;
    }

    lemma NodeFacts(p: Path)
      requires Valid() && p in at
      ensures at[p] < pool.blocks.Length && pool.blocks[at[p]].Used?
      ensures pool.blocks[at[p]].value.isDir <==> Flat()[p]
      ensures p in Data() <==> at[p] in files
      ensures p in Data() ==> !Flat()[p]
      ensures p in Data() ==> Data()[p] == Stored()[at[p]] == files[at[p]].Contents()
    {
      hide Shape, FreeList;
      AllInUse(pool.blocks[..], at, kids);
    }

    /** Assign to a node that is in use. */
    method Fill(b: nat, node: Node)
      requires pool.Valid() && b < pool.blocks.Length && pool.blocks[b].Used?
      modifies pool.blocks
      ensures pool.Valid() && pool.blocks[..] == old(pool.blocks[..])[b := Used(node)]
    {
      hide FreeList;
      KeepsFreeList(pool.blocks[..], pool.head, pool.list, b, node);
      pool.blocks[b] := Used(node);
      assert pool.blocks[..] == old(pool.blocks[..])[b := Used(node)];
    }
  }

  /** No two files share an object or a buffer. */
  ghost predicate Apart(files: map<nat, File>)
    reads files.Values
  {
    && (forall i :: i in files ==> files[i].Valid())
    && (forall i, j :: i in files && j in files && i != j ==> files[i] != files[j] && files[i].dat != files[j].dat)
  }

  ghost function ContentsIn(files: map<nat, File>): (m: map<nat, seq<Byte>>)
    reads files.Values, set i | i in files :: files[i].dat
    requires Apart(files)
    ensures m.Keys == files.Keys
  {
    map i | i in files :: files[i].Contents()
  }

  lemma FileJoins(files: map<nat, File>, node: nat, file: File)
    requires Apart(files) && node !in files && file.Valid() && file.Contents() == []
    requires forall i :: i in files ==> files[i] != file && files[i].dat != file.dat
    ensures Apart(files[node := file]) && ContentsIn(files[node := file]) == ContentsIn(files)[node := []]
  {
  }

  /** Only files have data. A file has none if there was no memory for it when it was made. */
  ghost predicate KindsOk(f: Flat, at: Tree, withData: set<nat>)
  {
    f.Keys == at.Keys && withData <= at.Values && forall p :: p in at && at[p] in withData ==> !f[p]
  }

  ghost predicate DirAt(f: Flat, p: Path) { p in f && f[p] }

  /** The contents of a file, which are empty if it has no data. */
  ghost function FileAt(data: map<Path, seq<Byte>>, p: Path): seq<Byte>
  {
    if p in data then data[p] else []
  }

  lemma WrittenIsRead(data: seq<Byte>, view: seq<Byte>, offset: nat, now: seq<Byte>, before: seq<Byte>, n: nat)
    requires offset <= |data| && now == if view != [] then Spliced(data, view, offset) else data
    requires offset + n <= |now|
    ensures offset + |view| <= |now|
    ensures var k := Min(n, |view|); (before + now[offset..offset + n])[..|before| + k] == before + view[..k]
  {
    var k := Min(n, |view|);
    if view != [] {
      WrittenAndKept(data, view, offset);
      assert now[offset..offset + n][..k] == now[offset..offset + |view|][..k];
    }
  }

  /** The new path `p` and the missing ones above it, which are directories, and nothing else. */
  ghost predicate PathMade(f: Flat, f': Flat, p: Path, isDir: bool)
  {
    && p !in f
    && (forall x :: x in f' <==> x in f || x <= p)
    && (forall x :: x in f' ==> f'[x] == if x in f then f[x] else x != p || isDir)
  }

  ghost function DataOf(at: Tree, stored: map<nat, seq<Byte>>): map<Path, seq<Byte>>
  {
    map p | p in at && at[p] in stored :: stored[at[p]]
  }

  lemma DirMade(f: Flat, f': Flat, at: Tree, at': Tree, q: Path, c: Path, recursive: bool, free: nat, r: Result<nat>,
                stored: map<nat, seq<Byte>>)
    requires Closed(f) && q in f && Outcome(f, f', at', q, c, true, recursive, free, r) && f'.Keys == at'.Keys
    requires Extends(at, at') && KindsOk(f, at, stored.Keys)
    requires forall x, y {:trigger at'[x], at'[y]} :: x in at' && y in at' && at'[x] == at'[y] ==> x == y
    ensures KindsOk(f', at', stored.Keys) && DataOf(at', stored) == DataOf(at, stored)
    ensures r.Ok? ==> PathMade(f, f', q + c, true)
  {
    hide Outcome, Extends, DataOf, Closed;
    CreationMeans(f, f', at', q, c, true, recursive, free, r);
    ValuesKept(at, at');
    DataKept(at, at', stored);
    KindsKept(f, f', at, at', stored.Keys);
  }

  lemma FileMade(f: Flat, f': Flat, at: Tree, at': Tree, q: Path, c: Path, recursive: bool, free: nat,
                 made: Result<nat>,
                 memory: bool, stored: map<nat, seq<Byte>>)
    requires Closed(f) && q in f && Outcome(f, f', at', q, c, false, recursive, free, made) && f'.Keys == at'.Keys
    requires Extends(at, at') && KindsOk(f, at, stored.Keys)
    requires forall x, y {:trigger at'[x], at'[y]} :: x in at' && y in at' && at'[x] == at'[y] ==> x == y
    ensures var stored' := if made.Ok? && memory then stored[made.value := []] else stored;
            && KindsOk(f', at', stored'.Keys)
            && DataOf(at', stored') == if made.Ok? && memory then DataOf(at, stored)[q + c := []]
                else DataOf(at, stored)
    ensures made.Ok? ==> made.value !in stored && PathMade(f, f', q + c, false)
  {
    hide Outcome, Extends, DataOf, Closed;
    CreationMeans(f, f', at', q, c, false, recursive, free, made);
    ValuesKept(at, at');
    DataKept(at, at', stored);
    KindsKept(f, f', at, at', stored.Keys);
    if made.Ok? {
      NewIsBare(f, at, at', q + c, stored.Keys);
      FileAdded(at', stored, q + c);
      assert stored[made.value := []].Keys == stored.Keys + {made.value};
    }
  }

  lemma FlatAt(blocks: Blocks, at: Tree, p: Path)
    requires p in at && forall x :: x in at ==> InUse(blocks, at, x)
    ensures FlatOf(blocks, at)[p] == blocks[at[p]].value.isDir
  {
  }

  lemma KindsKept(f: Flat, f': Flat, at: Tree, at': Tree, withData: set<nat>)
    requires Extends(at, at') && KindsOk(f, at, withData) && f'.Keys == at'.Keys && at.Values <= at'.Values
    requires forall x, y {:trigger at'[x], at'[y]} :: x in at' && y in at' && at'[x] == at'[y] ==> x == y
    requires forall x :: x in f ==> x in f' && f'[x] == f[x]
    ensures KindsOk(f', at', withData)
  {
    forall x | x in at' && at'[x] in withData
      ensures !f'[x]
    {
      var y :| y in at && at[y] == at'[x];
      assert at'[y] == at'[x];
    }
  }

  /** The node of a new path has no data yet. */
  lemma NewIsBare(f: Flat, at: Tree, at': Tree, p: Path, withData: set<nat>)
    requires Extends(at, at') && KindsOk(f, at, withData) && p in at' && p !in f
    requires forall x, y {:trigger at'[x], at'[y]} :: x in at' && y in at' && at'[x] == at'[y] ==> x == y
    ensures at'[p] !in withData
  {
    assert p !in at;
    forall y | y in at
      ensures at[y] != at'[p]
    {
      assert at'[y] == at[y];
    }
  }

  lemma DataKept(at: Tree, at': Tree, stored: map<nat, seq<Byte>>)
    requires Extends(at, at') && stored.Keys <= at.Values
    ensures DataOf(at', stored) == DataOf(at, stored)
  {
  }

  lemma FileAdded(at: Tree, stored: map<nat, seq<Byte>>, p: Path)
    requires p in at
    requires forall x, y {:trigger at[x], at[y]} :: x in at && y in at && at[x] == at[y] ==> x == y
    ensures DataOf(at, stored[at[p] := []]) == DataOf(at, stored)[p := []]
  {
  }

  lemma ValuesKept(at: Tree, at': Tree)
    requires Extends(at, at')
    ensures at.Values <= at'.Values
  {
    forall v | v in at.Values
      ensures v in at'.Values
    {
      var p :| p in at && at[p] == v;
      assert at'[p] == v;
    }
  }

  lemma WrittenData(at: Tree, stored: map<nat, seq<Byte>>, p: Path, data: seq<Byte>)
    requires p in at && at[p] in stored
    requires forall x, y {:trigger at[x], at[y]} :: x in at && y in at && at[x] == at[y] ==> x == y
    ensures DataOf(at, stored[at[p] := data]) == DataOf(at, stored)[p := data]
    ensures p in DataOf(at, stored) && DataOf(at, stored)[p] == stored[at[p]]
  {
  }

  /** Paths keep their nodes, and new paths have new ones. */
  ghost predicate Extends(at: Tree, at': Tree)
  {
    && (forall p :: p in at ==> p in at' && at'[p] == at[p])
    && (forall p :: p in at' && p !in at ==> at'[p] !in at.Values)
  }

  lemma OneNodeOnePath(blocks: Blocks, at: Tree, kids: Kids)
    requires Shape(blocks, at, kids)
    ensures forall p, q {:trigger at[p], at[q]} :: p in at && q in at && at[p] == at[q] ==> p == q
  {
  }

  lemma SameExtends(at: Tree)
    ensures Extends(at, at)
  {
  }

  lemma ExtendsOne(at: Tree, p: Path, b: nat)
    requires p !in at && forall x :: x in at ==> at[x] != b
    ensures Extends(at, at[p := b])
  {
  }

  lemma ExtendsFurther(at: Tree, at1: Tree, at2: Tree)
    requires Extends(at, at1) && Extends(at1, at2)
    ensures Extends(at, at2)
  {
    forall p | p in at2 && p !in at
      ensures at2[p] !in at.Values
    {
      forall x | x in at
        ensures at[x] != at2[p]
      {
        assert at1[x] == at[x];
      }
    }
  }

  lemma ParentThere(blocks: Blocks, at: Tree, kids: Kids, q: Path, c: Path)
    requires Shape(blocks, at, kids) && q in at && c != []
    ensures q + c in at ==> q + Init(c) in at && InUse(blocks, at, q + Init(c)) && IsDir(blocks, at, q + Init(c))
  {
    if q + c in at {
      AboveExists(blocks, at, kids, q + c, |q + c| - 1);
      assert (q + c)[..|q + c| - 1] == q + Init(c);
    }
  }

  /** The printed parent fits the printer's buffer and parses to the components without the last. */
  lemma ParentParses(path: seq<Byte>, c: Path)
    requires Parse(path) == Ok(c) && c != []
    ensures NameOk(Last(c)) && PathOk(Init(c)) && |Print(Init(c))| <= PATH_NAME_MAX_LEN &&
        Parse(Print(Init(c))) == Ok(Init(c))
    ensures |Split(Print(Init(c)))| < |Split(path)|
  {
    SplitNames(path);
    PrintIsNoLonger(path);
    PrintParent(c);
    ParsePrint(Init(c));
  }

  lemma KeepsFreeList(blocks: Blocks, head: int, list: seq<nat>, b: nat, node: Node)
    requires FreeList(blocks, head, list) && b < |blocks| && blocks[b].Used?
    ensures FreeList(blocks[b := Used(node)], head, list)
  {
    var new' := blocks[b := Used(node)];
    forall i | 0 <= i < |list|
      ensures Pools.Linked(new', list, i)
    {
      assert Pools.Linked(blocks, list, i);
    }
  }

  lemma FreeIsLink(blocks: Blocks, head: int, list: seq<nat>, b: nat)
    requires FreeList(blocks, head, list) && list != [] && b == list[0]
    ensures b < |blocks| && blocks[b].Link?
  {
    assert Pools.Linked(blocks, list, 0);
  }

  lemma DirIsOk(blocks: Blocks, at: Tree, kids: Kids, d: Path)
    requires Shape(blocks, at, kids) && d in at
    ensures DirOk(blocks, at, kids, d)
  {
  }

  lemma KidNamed(blocks: Blocks, at: Tree, kids: Kids, d: Path, j: nat)
    requires Shape(blocks, at, kids) && d in at && d in kids && j <= |kids[d]| && NodeAfter(at, d, kids[d], j) != NULL
    ensures var c := NodeAfter(at, d, kids[d], j);
            && j < |kids[d]| && KidOk(blocks, at, d, kids[d], j)
            && 0 <= c < |blocks| && blocks[c].Used? && blocks[c].value.name == kids[d][j]
            && blocks[c].value.next == NodeAfter(at, d, kids[d], j + 1)
            && c == at[d + [kids[d][j]]]
  {
    assert DirOk(blocks, at, kids, d) && KidOk(blocks, at, d, kids[d], j);
    InitLast(d, kids[d][j]);
    assert DirOk(blocks, at, kids, d + [kids[d][j]]);
  }

  lemma EndOfList(blocks: Blocks, at: Tree, kids: Kids, d: Path, j: nat)
    requires Shape(blocks, at, kids) && d in at && d in kids && j <= |kids[d]| && NodeAfter(at, d, kids[d], j) == NULL
    ensures j == |kids[d]|
  {
    if j < |kids[d]| {
      NodeThere(blocks, at, kids, d, j);
    }
  }

  lemma NodeThere(blocks: Blocks, at: Tree, kids: Kids, d: Path, j: nat)
    requires Shape(blocks, at, kids) && d in at && d in kids && j < |kids[d]|
    ensures NodeAfter(at, d, kids[d], j) != NULL
  {
    assert DirOk(blocks, at, kids, d) && KidOk(blocks, at, d, kids[d], j);
  }

  lemma WithNodeUses(blocks: Blocks, at: Tree, kids: Kids, d: Path, n: Name, isDir: bool, b: nat)
    requires Shape(blocks, at, kids) && d in at && DirOk(blocks, at, kids, d)
    requires b < |blocks| && blocks[b].Link? && d + [n] !in at
    ensures var new', at' := WithNode(blocks, at, kids, d, n, isDir, b), at[d + [n] := b];
            && (forall p :: p in at ==>
                  InUse(blocks, at, p) && at[p] != b && InUse(new', at', p) &&
                      IsDir(new', at', p) == IsDir(blocks, at, p))
            && InUse(new', at', d + [n]) && IsDir(new', at', d + [n]) == isDir
  {
    hide WithNode, Shape, DirOk;
    var new', at' := WithNode(blocks, at, kids, d, n, isDir, b), at[d + [n] := b];
    WithNodeAt(blocks, at, kids, d, n, isDir, b, d);
    forall p | p in at
      ensures InUse(blocks, at, p) && at[p] != b && InUse(new', at', p) && IsDir(new', at', p) == IsDir(blocks, at, p)
    {
      WithNodeAt(blocks, at, kids, d, n, isDir, b, p);
    }
  }

  lemma WithNodeFlat(blocks: Blocks, at: Tree, kids: Kids, d: Path, n: Name, isDir: bool, b: nat)
    requires Shape(blocks, at, kids) && d in at && DirOk(blocks, at, kids, d)
    requires b < |blocks| && blocks[b].Link? && d + [n] !in at
    ensures (forall p :: p in at ==> InUse(blocks, at, p) && at[p] != b)
    ensures var new', at' := WithNode(blocks, at, kids, d, n, isDir, b), at[d + [n] := b];
            && (forall p :: p in at' ==> InUse(new', at', p))
            && FlatOf(new', at') == FlatOf(blocks, at)[d + [n] := isDir]
            && |at'| == |at| + 1
  {
    hide WithNode, Shape, DirOk, InUse, IsDir;
    WithNodeUses(blocks, at, kids, d, n, isDir, b);
    NewKey(at, d + [n], b);
  }

  lemma RootAlone(blocks: Blocks, dir: nat)
    requires dir < |blocks| && blocks[dir] == Used(Node(NULL, NULL, true, []))
    ensures var at, kids: Kids := map[[] := dir], map[[] := []];
            && Shape(blocks, at, kids) && (forall p :: p in at ==> InUse(blocks, at, p))
            && FlatOf(blocks, at) == map[[] := true]
  {
    var at, kids: Kids := map[[] := dir], map[[] := []];
    assert DirOk(blocks, at, kids, []);
  }

  /** What `CreationMeans` asks for holds in every file system. */
  lemma ShapeIsClosed(blocks: Blocks, at: Tree, kids: Kids)
    requires Shape(blocks, at, kids)
    ensures (forall p :: p in at ==> InUse(blocks, at, p)) && Closed(FlatOf(blocks, at))
  {
    AllInUse(blocks, at, kids);
    forall p | p in at
      ensures Above(FlatOf(blocks, at), p)
    {
      assert DirOk(blocks, at, kids, p);
    }
  }

  lemma AllInUse(blocks: Blocks, at: Tree, kids: Kids)
    requires Shape(blocks, at, kids)
    ensures forall p :: p in at ==> InUse(blocks, at, p)
  {
    forall p | p in at
      ensures InUse(blocks, at, p)
    {
      assert DirOk(blocks, at, kids, p);
    }
  }

  lemma StartWalking(blocks: Blocks, at: Tree, kids: Kids, q: Path, comps: Path)
    requires Shape(blocks, at, kids) && comps != [] && q in at
    ensures InUse(blocks, at, q) && Walking(blocks, at, kids, q, comps, 0, 0, blocks[at[q]].value.first)
  {
    assert DirOk(blocks, at, kids, q);
    assert q + comps[..0] == q;
  }
}
