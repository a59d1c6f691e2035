/** The table of linear address regions of src/paging.c: registration and the two translations. */
module AddrTables {
  import opened Common
  import opened PageTree

  datatype Kind = Canonical | Alias

  datatype AddrMapping = AddrMapping(kind: Kind, mem: MemType, perms: Perms, vbase: int, pbase: int, len: int)

  const NUM_ADDR_MAPPINGS := 32

  predicate IntervalsOverlap(a1: int, b1: int, a2: int, b2: int)
  {
    a1 < b2 && a2 < b1
  }

  predicate InRange(a: int, base: int, len: int)
  {
    base <= a < base + len
  }

  predicate VirtOverlap(m: AddrMapping, n: AddrMapping)
  {
    IntervalsOverlap(m.vbase, m.vbase + m.len, n.vbase, n.vbase + n.len)
  }

  predicate PhysOverlap(m: AddrMapping, n: AddrMapping)
  {
    IntervalsOverlap(m.pbase, m.pbase + m.len, n.pbase, n.pbase + n.len)
  }

  /** What the loops over the table look for. */
  datatype Query =
    | VirtClash(m: AddrMapping)
    | PhysClash(m: AddrMapping, kind: Kind)
    | CoversVirt(vaddr: int)
    | CoversPhys(paddr: int, kind: Kind)
  {
    predicate Matches(m: AddrMapping)
    {
      match this
      case VirtClash(n) => VirtOverlap(n, m)
      case PhysClash(n, k) => m.kind == k && PhysOverlap(n, m)
      case CoversVirt(v) => InRange(v, m.vbase, m.len)
      case CoversPhys(p, k) => m.kind == k && InRange(p, m.pbase, m.len)
    }
  }

  predicate Hit(maps: seq<AddrMapping>, used: seq<bool>, q: Query, i: nat)
    requires |maps| == |used| && i < |maps|
  {
    used[i] && q.Matches(maps[i])
  }

  /** The number of registered regions among the first `n` slots that match `q`. */
  function Count(maps: seq<AddrMapping>, used: seq<bool>, q: Query, n: nat): nat
    requires n <= |maps| == |used|
  {
    if n == 0 then 0 else Count(maps, used, q, n - 1) + if Hit(maps, used, q, n - 1) then 1 else 0
  }

  /** The last of the first `n` slots that matches `q`. */
  function Last(maps: seq<AddrMapping>, used: seq<bool>, q: Query, n: nat): (r: Option<nat>)
    requires n <= |maps| == |used|
    ensures r.Some? ==> r.value < n && Hit(maps, used, q, r.value)
    ensures r.None? ==> forall i :: 0 <= i < n ==> !Hit(maps, used, q, i)
  {
    if n == 0 then None
    else if Hit(maps, used, q, n - 1) then Some(n - 1)
    else Last(maps, used, q, n - 1)
  }

  lemma {:induction false} CountIsZero(maps: seq<AddrMapping>, used: seq<bool>, q: Query, n: nat)
    requires n <= |maps| == |used|
    ensures Count(maps, used, q, n) == 0 <==> forall i :: 0 <= i < n ==> !Hit(maps, used, q, i)
  {
    if n > 0 {
      CountIsZero(maps, used, q, n - 1);
    }
  }

  lemma {:induction false} CountIsOne(maps: seq<AddrMapping>, used: seq<bool>, q: Query, n: nat, k: nat)
    requires k < n <= |maps| == |used|
    requires Hit(maps, used, q, k)
    requires forall i :: 0 <= i < n && Hit(maps, used, q, i) ==> i == k
    ensures Count(maps, used, q, n) == 1 && Last(maps, used, q, n) == Some(k)
  {
    if n - 1 == k {
      CountIsZero(maps, used, q, n - 1);
    } else {
      CountIsOne(maps, used, q, n - 1, k);
    }
  }

  /** No virtual address lies in two registered regions. */
  ghost predicate VirtDisjoint(maps: seq<AddrMapping>, used: seq<bool>)
    requires |maps| == |used|
  {
    forall i, j :: 0 <= i < j < |maps| && used[i] && used[j] ==> !VirtOverlap(maps[i], maps[j])
  }

  /** `virt_to_phys` as a function of the table. */
  function VirtToPhys(maps: seq<AddrMapping>, used: seq<bool>, vaddr: int): Result<int>
    requires |maps| == |used|
  {
    if vaddr == 0 then Ok(0)
    else if Count(maps, used, CoversVirt(vaddr), |maps|) > 1 then Crashed
    else
      match Last(maps, used, CoversVirt(vaddr), |maps|)
      case Some(i) => Ok(maps[i].pbase + (vaddr - maps[i].vbase))
      case None => Err(EINVAL)
  }

  /** The rule by which a physical address has one virtual address: one canonical region, or no
      canonical region and at most one alias. */
  predicate Unambiguous(nCanonical: nat, nAlias: nat)
  {
    nCanonical == 1 || (nCanonical == 0 && nAlias == 1) || (nCanonical == 0 && nAlias == 0)
  }

  /** `phys_to_virt` as a function of the table. */
  function PhysToVirt(maps: seq<AddrMapping>, used: seq<bool>, paddr: int): Result<int>
    requires |maps| == |used|
  {
    if paddr == 0 then Ok(0)
    else if !Unambiguous(Count(maps, used, CoversPhys(paddr, Canonical), |maps|),
                         Count(maps, used, CoversPhys(paddr, Alias), |maps|)) then Crashed
    else
      match Last(maps, used, CoversPhys(paddr, Canonical), |maps|)
      case Some(i) => Ok(maps[i].vbase + (paddr - maps[i].pbase))
      case None =>
        match Last(maps, used, CoversPhys(paddr, Alias), |maps|)
        case Some(i) => Ok(maps[i].vbase + (paddr - maps[i].pbase))
        case None => Err(EINVAL)
  }

  /** With disjoint regions, `virt_to_phys` never trips its own check, and a region that covers a
      non-zero address decides its translation. */
  lemma VirtToPhysIsUnique(maps: seq<AddrMapping>, used: seq<bool>, vaddr: int, i: nat)
    requires i < |maps| == |used| && VirtDisjoint(maps, used)
    requires vaddr != 0 && Hit(maps, used, CoversVirt(vaddr), i)
    ensures VirtToPhys(maps, used, vaddr) == Ok(maps[i].pbase + (vaddr - maps[i].vbase))
  {
    CountIsOne(maps, used, CoversVirt(vaddr), |maps|, i);
  }

  lemma VirtToPhysIsPartial(maps: seq<AddrMapping>, used: seq<bool>, vaddr: int)
    requires |maps| == |used|
    requires vaddr != 0 && forall i :: 0 <= i < |maps| ==> !Hit(maps, used, CoversVirt(vaddr), i)
    ensures VirtToPhys(maps, used, vaddr) == Err(EINVAL)
  {
    CountIsZero(maps, used, CoversVirt(vaddr), |maps|);
  }

  /** A physical address that exactly one canonical region covers is translated by that region. */
  lemma PhysToVirtIsUnique(maps: seq<AddrMapping>, used: seq<bool>, paddr: int, i: nat)
    requires i < |maps| == |used|
    requires paddr != 0 && Hit(maps, used, CoversPhys(paddr, Canonical), i)
    requires forall j :: 0 <= j < |maps| && Hit(maps, used, CoversPhys(paddr, Canonical), j) ==> j == i
    ensures PhysToVirt(maps, used, paddr) == Ok(maps[i].vbase + (paddr - maps[i].pbase))
  {
    CountIsOne(maps, used, CoversPhys(paddr, Canonical), |maps|, i);
  }

  /** Without a canonical region over the address, a single alias translates it. */
  lemma PhysToVirtByAlias(maps: seq<AddrMapping>, used: seq<bool>, paddr: int, i: nat)
    requires i < |maps| == |used| && paddr != 0
    requires forall j :: 0 <= j < |maps| ==> !Hit(maps, used, CoversPhys(paddr, Canonical), j)
    requires Hit(maps, used, CoversPhys(paddr, Alias), i)
    ensures PhysToVirt(maps, used, paddr) ==
              if exists j :: 0 <= j < |maps| && j != i && Hit(maps, used, CoversPhys(paddr, Alias), j) then Crashed
              else Ok(maps[i].vbase + (paddr - maps[i].pbase))
  {
    CountIsZero(maps, used, CoversPhys(paddr, Canonical), |maps|);
    CountIsZero(maps, used, CoversPhys(paddr, Alias), |maps|);
    if j :| 0 <= j < |maps| && j != i && Hit(maps, used, CoversPhys(paddr, Alias), j) {
      CountIsMore(maps, used, CoversPhys(paddr, Alias), |maps|, Min(i, j), Max(i, j));
    } else {
      CountIsOne(maps, used, CoversPhys(paddr, Alias), |maps|, i);
    }
  }

  lemma {:induction false} CountIsMore(maps: seq<AddrMapping>, used: seq<bool>, q: Query, n: nat, i: nat, j: nat)
    requires i < j < n <= |maps| == |used| && Hit(maps, used, q, i) && Hit(maps, used, q, j)
    ensures Count(maps, used, q, n) > 1
  {
    if j < n - 1 {
      CountIsMore(maps, used, q, n - 1, i, j);
    } else {
      CountIsZero(maps, used, q, j);
    }
  }

  /** An address that no region covers has no translation. */
  lemma PhysToVirtIsPartial(maps: seq<AddrMapping>, used: seq<bool>, paddr: int)
    requires |maps| == |used| && paddr != 0
    requires forall i :: 0 <= i < |maps| && used[i] ==> !InRange(paddr, maps[i].pbase, maps[i].len)
    ensures PhysToVirt(maps, used, paddr) == Err(EINVAL)
  {
    CountIsZero(maps, used, CoversPhys(paddr, Canonical), |maps|);
    CountIsZero(maps, used, CoversPhys(paddr, Alias), |maps|);
  }

  /** Address zero translates to itself, whatever is registered. */
  lemma ZeroIsZero(maps: seq<AddrMapping>, used: seq<bool>)
    requires |maps| == |used|
    ensures VirtToPhys(maps, used, 0) == PhysToVirt(maps, used, 0) == Ok(0)
  {
  }

  /** The new region `m` passes the checks against the registered ones. */
  ghost predicate Compatible(maps: seq<AddrMapping>, used: seq<bool>, m: AddrMapping)
    requires |maps| == |used|
  {
    && (forall i :: 0 <= i < |maps| ==> !Hit(maps, used, VirtClash(m), i))
    && Unambiguous(Count(maps, used, PhysClash(m, Canonical), |maps|), Count(maps, used, PhysClash(m, Alias), |maps|))
  }

  /** Exactly when registering `m` succeeds. */
  ghost predicate Admits(maps: seq<AddrMapping>, used: seq<bool>, m: AddrMapping)
    requires |maps| == |used|
  {
    Compatible(maps, used, m) && exists i :: 0 <= i < |used| && !used[i]
  }

  /** The slots of registered regions of a kind that share physical memory with `m`. */
  function Sharing(maps: seq<AddrMapping>, used: seq<bool>, m: AddrMapping, kind: Kind, n: nat): set<nat>
    requires n <= |maps| == |used|
  {
    set i: nat | i < n && used[i] && maps[i].kind == kind &&
                 m.pbase < maps[i].pbase + maps[i].len && maps[i].pbase < m.pbase + m.len
  }

  lemma {:induction false} CountIsSharing(maps: seq<AddrMapping>, used: seq<bool>, m: AddrMapping, kind: Kind, n: nat)
    requires n <= |maps| == |used|
    ensures Count(maps, used, PhysClash(m, kind), n) == |Sharing(maps, used, m, kind, n)|
  {
    if n > 0 {
      CountIsSharing(maps, used, m, kind, n - 1);
      var before := Sharing(maps, used, m, kind, n - 1);
      assert Sharing(maps, used, m, kind, n) ==
               if Hit(maps, used, PhysClash(m, kind), n - 1) then before + {n - 1} else before;
    }
  }

  /** A region is admitted exactly if a slot is free, it shares no virtual address with a registered one,
      and its physical memory is shared with one canonical region, or with none and at most one alias. */
  lemma AdmitsMeans(maps: seq<AddrMapping>, used: seq<bool>, m: AddrMapping)
    requires |maps| == |used|
    ensures Admits(maps, used, m) <==>
              && (exists i :: 0 <= i < |used| && !used[i])
              && (forall i :: 0 <= i < |maps| && used[i] ==>
                    m.vbase >= maps[i].vbase + maps[i].len || maps[i].vbase >= m.vbase + m.len)
              && var canonical := |Sharing(maps, used, m, Canonical, |maps|)|;
                 canonical == 1 || (canonical == 0 && |Sharing(maps, used, m, Alias, |maps|)| <= 1)
  {
    CountIsSharing(maps, used, m, Canonical, |maps|);
    CountIsSharing(maps, used, m, Alias, |maps|);
    assert forall i :: 0 <= i < |maps| ==>
        (Hit(maps, used, VirtClash(m), i) <==>
           used[i] && m.vbase < maps[i].vbase + maps[i].len && maps[i].vbase < m.vbase + m.len);
  }

  // ----- Uniqueness of physical addresses --------------------------------------------------------

  /** What `phys_to_virt` asserts at every address. */
  ghost predicate PhysUnique(maps: seq<AddrMapping>, used: seq<bool>)
    requires |maps| == |used|
  {
    forall p {:trigger UniqueAt(maps, used, p)} :: UniqueAt(maps, used, p)
  }

  ghost predicate UniqueAt(maps: seq<AddrMapping>, used: seq<bool>, p: int)
    requires |maps| == |used|
  {
    Unambiguous(Count(maps, used, CoversPhys(p, Canonical), |maps|), Count(maps, used, CoversPhys(p, Alias), |maps|))
  }

  lemma {:induction false} CountAfterAdd(maps: seq<AddrMapping>, used: seq<bool>, m: AddrMapping, slot: nat, q: Query,
                                         n: nat)
    requires n <= |maps| == |used| && slot < |maps| && !used[slot]
    ensures Count(maps[slot := m], used[slot := true], q, n) ==
              Count(maps, used, q, n) + if slot < n && q.Matches(m) then 1 else 0
  {
    if n > 0 {
      CountAfterAdd(maps, used, m, slot, q, n - 1);
    }
  }

  /** Exactly when a new region keeps physical addresses unambiguous: no byte of a canonical region
      is canonical already, and every byte of an alias is canonical or new. Line 70 checks less. */
  lemma UniquenessKept(maps: seq<AddrMapping>, used: seq<bool>, m: AddrMapping, slot: nat)
    requires slot < |maps| == |used| && !used[slot] && PhysUnique(maps, used)
    ensures PhysUnique(maps[slot := m], used[slot := true]) <==>
              forall p :: InRange(p, m.pbase, m.len) ==>
                var n, k := Count(maps, used, CoversPhys(p, Canonical), |maps|),
                            Count(maps, used, CoversPhys(p, Alias), |maps|);
                if m.kind == Canonical then n == 0 else n == 1 || k == 0
  {
    var maps', used' := maps[slot := m], used[slot := true];
    forall p
      ensures UniqueAt(maps, used, p)
      ensures UniqueAt(maps', used', p) <==>
                (InRange(p, m.pbase, m.len) ==>
                  var n, k := Count(maps, used, CoversPhys(p, Canonical), |maps|),
                              Count(maps, used, CoversPhys(p, Alias), |maps|);
                  if m.kind == Canonical then n == 0 else n == 1 || k == 0)
    {
      CountAfterAdd(maps, used, m, slot, CoversPhys(p, Canonical), |maps|);
      CountAfterAdd(maps, used, m, slot, CoversPhys(p, Alias), |maps|);
    }
  }

  /** The check admits a second canonical region over the same frames; translating one of them back
      then trips the assertion in `phys_to_virt`. */
  lemma SecondCanonicalAdmitted(rw: Perms)
    ensures var m := AddrMapping(Canonical, WriteBack, rw, 0x1000, 0x8000, 0x1000);
            var n := AddrMapping(Canonical, WriteBack, rw, 0x5000, 0x8000, 0x1000);
            && PhysUnique([m, n], [true, false]) && Admits([m, n], [true, false], n)
            && PhysToVirt([m, n], [true, true], 0x8000) == Crashed
  {
    var m := AddrMapping(Canonical, WriteBack, rw, 0x1000, 0x8000, 0x1000);
    var n := AddrMapping(Canonical, WriteBack, rw, 0x5000, 0x8000, 0x1000);
    var maps, used := [m, n], [true, false];
    assert !used[1];
    forall q, u: seq<bool> | |u| == 2
      ensures Count(maps, u, q, 2) == (if Hit(maps, u, q, 0) then 1 else 0) + (if Hit(maps, u, q, 1) then 1 else 0)
    {
      assert Count(maps, u, q, 1) == if Hit(maps, u, q, 0) then 1 else 0;
    }
    assert Hit(maps, [true, true], CoversPhys(0x8000, Canonical), 0);
    assert Hit(maps, [true, true], CoversPhys(0x8000, Canonical), 1);
  }

  predicate SameRegion(m: AddrMapping, n: AddrMapping)
  {
    m.vbase == n.vbase && m.pbase == n.pbase && m.len == n.len
  }

  lemma DisjointAfterAdd(maps: seq<AddrMapping>, used: seq<bool>, m: AddrMapping, slot: nat)
    requires slot < |maps| == |used| && VirtDisjoint(maps, used)
    requires forall i :: 0 <= i < |maps| ==> !Hit(maps, used, VirtClash(m), i)
    ensures VirtDisjoint(maps[slot := m], used[slot := true])
  {
    forall i | 0 <= i < |maps| && used[i]
      ensures !VirtOverlap(m, maps[i])
    {
      assert !Hit(maps, used, VirtClash(m), i);
    }
  }

  class AddrTable {
    const mappings: array<AddrMapping>
    const used: array<bool>

    ghost predicate Valid()
      reads this, mappings, used
    {
      && mappings.Length == used.Length == NUM_ADDR_MAPPINGS
      && VirtDisjoint(mappings[..], used[..])
    }

    constructor ()
      ensures Valid() && fresh(mappings) && fresh(used)
      ensures forall i :: 0 <= i < NUM_ADDR_MAPPINGS ==> !used[i]
    {
      mappings := new AddrMapping[NUM_ADDR_MAPPINGS](_ => AddrMapping(Canonical, WriteBack, Perms(false, false), 0, 0,
          0));
      used := new bool[NUM_ADDR_MAPPINGS](_ => false);
    }

    /** `add_addr_mapping`. */
    method Add(m: AddrMapping) returns (r: Result<()>, slot: nat)
      requires Valid()
      modifies mappings, used
      ensures Valid()
      ensures r.Ok? <==> old(Admits(mappings[..], used[..], m))
      ensures r.Ok? ==>
                && slot < NUM_ADDR_MAPPINGS && !old(used[slot])
                && mappings[..] == old(mappings[..])[slot := m]
                && used[..] == old(used[..])[slot := true]
      ensures !r.Ok? ==>
                && r == Err(if old(Compatible(mappings[..], used[..], m)) then ENOMEM else EINVAL)
                && mappings[..] == old(mappings[..]) && used[..] == old(used[..])
    {
      slot := 0;
      var nCanonical, nAlias := 0, 0;
      for i := 0 to NUM_ADDR_MAPPINGS
        invariant mappings[..] == old(mappings[..]) && used[..] == old(used[..])
        invariant forall j :: 0 <= j < i ==> !Hit(mappings[..], used[..], VirtClash(m), j)
        invariant nCanonical == Count(mappings[..], used[..], PhysClash(m, Canonical), i)
        invariant nAlias == Count(mappings[..], used[..], PhysClash(m, Alias), i)
      {
        if used[i] {
          var mapping := mappings[i];
          assert mappings[..][i] == mapping && used[..][i];
          if VirtOverlap(m, mapping) {
            assert Hit(mappings[..], used[..], VirtClash(m), i);
            return Err(EINVAL), 0;
          }
          if PhysOverlap(m, mapping) {
            match mapping.kind
            case Canonical => nCanonical := nCanonical + 1;
            case Alias => nAlias := nAlias + 1;
          }
        }
      }
      if !(nCanonical == 1 || (nCanonical == 0 && nAlias == 1) || (nCanonical == 0 && nAlias == 0)) {
        return Err(EINVAL), 0;
      }
      for i := 0 to NUM_ADDR_MAPPINGS
        invariant mappings[..] == old(mappings[..]) && used[..] == old(used[..])
        invariant forall j :: 0 <= j < i ==> used[j]
      {
        if !used[i] {
          ghost var maps, us := mappings[..], used[..];
          DisjointAfterAdd(maps, us, m, i);
          mappings[i] := m;
          used[i] := true;
          assert mappings[..] == maps[i := m] && used[..] == us[i := true];
          return Ok(()), i;
        }
      }
      return Err(ENOMEM), 0;
    }

    /** `remove_addr_mapping`: forget the first region with the same bases and length. */
    method Remove(m: AddrMapping) returns (r: Result<()>, slot: nat)
      requires Valid()
      modifies used
      ensures Valid()
      ensures r.Ok? <==> exists i :: 0 <= i < NUM_ADDR_MAPPINGS && old(used[i]) && SameRegion(mappings[i], m)
      ensures r.Ok? ==>
                && slot < NUM_ADDR_MAPPINGS && old(used[slot]) && SameRegion(mappings[slot], m)
                && used[..] == old(used[..])[slot := false]
      ensures !r.Ok? ==> r == Err(EINVAL) && used[..] == old(used[..])
    {
      for i := 0 to NUM_ADDR_MAPPINGS
        invariant used[..] == old(used[..])
        invariant forall j :: 0 <= j < i ==> !(used[j] && SameRegion(mappings[j], m))
      {
        if used[i] && mappings[i].vbase == m.vbase && mappings[i].pbase == m.pbase && mappings[i].len == m.len {
          ghost var us := used[..];
          used[i] := false;
          assert used[..] == us[i := false];
          return Ok(()), i;
        }
      }
      return Err(EINVAL), 0;
    }

    /** `virt_to_phys`. */
    method ToPhys(vaddr: int) returns (r: Result<int>)
      requires Valid()
      ensures r == VirtToPhys(mappings[..], used[..], vaddr)
    {
      if vaddr == 0 {
        return Ok(0);
      }
      var candidate: Option<nat>, nCandidates := None, 0;
      for i := 0 to NUM_ADDR_MAPPINGS
        invariant candidate == Last(mappings[..], used[..], CoversVirt(vaddr), i)
        invariant nCandidates == Count(mappings[..], used[..], CoversVirt(vaddr), i)
      {
        if used[i] && InRange(vaddr, mappings[i].vbase, mappings[i].len) {
          candidate := Some(i);
          nCandidates := nCandidates + 1;
        }
      }
      if nCandidates > 1 {
        return Crashed;
      }
      match candidate
      case Some(i) => return Ok(mappings[i].pbase + (vaddr - mappings[i].vbase));
      case None => return Err(EINVAL);
    }

    /** `phys_to_virt`. */
    method ToVirt(paddr: int) returns (r: Result<int>)
      requires Valid()
      ensures r == PhysToVirt(mappings[..], used[..], paddr)
    {
      if paddr == 0 {
        return Ok(0);
      }
      var canonical: Option<nat>, alias: Option<nat>, nCanonical, nAlias := None, None, 0, 0;
      for i := 0 to NUM_ADDR_MAPPINGS
        invariant canonical == Last(mappings[..], used[..], CoversPhys(paddr, Canonical), i)
        invariant alias == Last(mappings[..], used[..], CoversPhys(paddr, Alias), i)
        invariant nCanonical == Count(mappings[..], used[..], CoversPhys(paddr, Canonical), i)
        invariant nAlias == Count(mappings[..], used[..], CoversPhys(paddr, Alias), i)
      {
        if used[i] {
          if InRange(paddr, mappings[i].pbase, mappings[i].len) {
            if mappings[i].kind == Canonical {
              canonical, nCanonical := Some(i), nCanonical + 1;
            } else {
              alias, nAlias := Some(i), nAlias + 1;
            }
          }
        }
      }
      if !(nCanonical == 1 || (nCanonical == 0 && nAlias == 1) || (nCanonical == 0 && nAlias == 0)) {
        return Crashed;
      }
      match canonical
      case Some(i) => return Ok(mappings[i].vbase + (paddr - mappings[i].pbase));
      case None =>
        match alias
        case Some(i) => return Ok(mappings[i].vbase + (paddr - mappings[i].pbase));
        case None => return Err(EINVAL);
    }
  }
}
