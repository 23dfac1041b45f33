/** What the page-table operations amount to: a flat map of pages, trees of nodes, and access rights. */
module PageTableLaws {
  import opened Common
  import Arith
  import opened Sequences
  import opened Paging

  // --- A table is a flat map ----------------------------------------------------

  datatype Op =
    | MapOp(base: nat, size: nat, perm: Permission)
    | PredefineOp(base: nat, size: nat, perm: Permission)
    | UnmapOp(base: nat, size: nat)

  /** An operation of a run, on the table with the given root. */
  datatype Event = Event(root: nat, kernel: bool, op: Op)

  datatype TableState = TableState(store: Store, place: map<nat, Place>)

  function ChangeOf(e: Event): Change {
    match e.op
    case MapOp(_, _, perm) => Map(e.kernel, perm)
    case PredefineOp(_, _, perm) => Map(e.kernel, perm)
    case UnmapOp(_, _) => Unmap
  }

  /** What one operation does to lookups and to the links of the roots. */
  ghost predicate Step(lowest: nat, s: TableState, s': TableState, e: Event)
    requires lowest <= TOP_LEVEL
  {
    && IsRoot(s.place, e.root)
    && Remapped(lowest, s.store, s.place, s'.store, s'.place, e.root, e.op.base, e.op.size, ChangeOf(e))
    && RootLinks(lowest, s.store, s.place, s'.store, e.root, e.op.base, e.op.size, ChangeOf(e), e.op.PredefineOp?)
  }

  ghost predicate IsRun(lowest: nat, states: seq<TableState>, events: seq<Event>)
    requires lowest <= TOP_LEVEL
  {
    && |states| == |events| + 1
    && forall i :: 0 <= i < |events| ==> Step(lowest, states[i], states[i + 1], events[i])
  }

  /** The flat map: the last operation of this table that covers the page decides its entry. */
  ghost function Flat(lowest: nat, root: nat, initial: Entry, events: seq<Event>, a: nat): Entry
    requires lowest <= TOP_LEVEL
  {
    if events == [] then initial else
      var last := events[|events| - 1];
      if last.root == root && last.op.base <= a < last.op.base + last.op.size
      then NewEntry(lowest, ChangeOf(last), a)
      else Flat(lowest, root, initial, events[..|events| - 1], a)
  }

  lemma RunPrefix(lowest: nat, states: seq<TableState>, events: seq<Event>)
    requires lowest <= TOP_LEVEL && IsRun(lowest, states, events) && events != []
    ensures IsRun(lowest, states[..|events|], events[..|events| - 1])
    ensures Step(lowest, states[|events| - 1], states[|events|], events[|events| - 1])
  {
    var before, init := states[..|events|], events[..|events| - 1];
    forall i | 0 <= i < |init|
      ensures Step(lowest, before[i], before[i + 1], init[i])
    {
      assert Step(lowest, states[i], states[i + 1], events[i]);
    }
  }

  /** After any run over any number of tables, every lookup is the flat map's answer. */
  lemma {:induction false} RunIsFlat(
    lowest: nat, states: seq<TableState>, events: seq<Event>, root: nat, a: nat)
    requires lowest <= TOP_LEVEL && IsRun(lowest, states, events) && a < ADDRESS_LIMIT
    requires IsRoot(states[0].place, root)
    ensures IsRoot(states[|events|].place, root)
    ensures states[|events|].place[root] == states[0].place[root]
    ensures Lookup(lowest, states[|events|].store, root, a) ==
              Flat(lowest, root, Lookup(lowest, states[0].store, root, a), events, a)
  {
    if events != [] {
      RunPrefix(lowest, states, events);
      RunIsFlat(lowest, states[..|events|], events[..|events| - 1], root, a);
    }
  }

  // --- Which links are persistent --------------------------------------------------

  /** The first operation that maps something below entry i of the root decides the type of that entry. */
  ghost function LinkType(root: nat, events: seq<Event>, i: nat): Option<bool> {
    if events == [] then None else
      var last := events[|events| - 1];
      var before := LinkType(root, events[..|events| - 1], i);
      if before.None? && last.root == root && !last.op.UnmapOp?
         && Touches(TOP_LEVEL, 0, i, last.op.base, last.op.base + last.op.size)
      then Some(last.op.PredefineOp?)
      else before
  }

  ghost predicate LinkIs(e: Entry, linkType: Option<bool>) {
    match linkType
    case None => e == EMPTY
    case Some(persistent) => e.addr != 0 && e.persistent == persistent
  }

  /** An entry of a root is persistent iff it was first linked for a predefined range. */
  lemma {:induction false} RunLinks(lowest: nat, states: seq<TableState>, events: seq<Event>, root: nat, i: nat)
    requires lowest < TOP_LEVEL && IsRun(lowest, states, events) && i < ENTRY_COUNT
    requires IsRoot(states[0].place, root) && root in states[0].store
    requires states[0].store[root] == seq(ENTRY_COUNT, _ => EMPTY)
    ensures IsRoot(states[|events|].place, root) && root in states[|events|].store
    ensures |states[|events|].store[root]| == ENTRY_COUNT
    ensures LinkIs(states[|events|].store[root][i], LinkType(root, events, i))
  {
    if events != [] {
      var n, last := |events| - 1, events[|events| - 1];
      RunPrefix(lowest, states, events);
      RunLinks(lowest, states[..|events|], events[..n], root, i);
      if last.root == root {
        assert FilledAt(states[n].store, states[n + 1].store, root, TOP_LEVEL, 0, last.op.base,
                        last.op.base + last.op.size, ChangeOf(last), last.op.PredefineOp?, i);
      }
    }
  }

  /** Mapping a range that read as empty and unmapping it again restores every lookup. */
  lemma MapThenUnmap(
    lowest: nat, s0: TableState, s1: TableState, s2: TableState, root: nat, kernel: bool,
    base: nat, size: nat, perm: Permission)
    requires lowest <= TOP_LEVEL
    requires Step(lowest, s0, s1, Event(root, kernel, MapOp(base, size, perm)))
    requires Step(lowest, s1, s2, Event(root, kernel, UnmapOp(base, size)))
    requires forall a: nat :: base <= a < base + size && a < ADDRESS_LIMIT ==>
               Lookup(lowest, s0.store, root, a) == EMPTY
    ensures forall r: nat, a: nat {:trigger Lookup(lowest, s2.store, r, a)} ::
              IsRoot(s0.place, r) && a < ADDRESS_LIMIT ==>
              Lookup(lowest, s2.store, r, a) == Lookup(lowest, s0.store, r, a)
  {
    forall r: nat, a: nat | IsRoot(s0.place, r) && a < ADDRESS_LIMIT
      ensures Lookup(lowest, s2.store, r, a) == Lookup(lowest, s0.store, r, a)
    {
      assert IsRoot(s1.place, r);
      var e := Lookup(lowest, s1.store, r, a);
    }
  }

  // --- Trees -----------------------------------------------------------------------

  /** The walk without the test for a large mapping: follow one index per level, down to the lowest. */
  ghost function PlainWalk(store: Store, node: nat, path: seq<nat>): Entry
    decreases |path|
  {
    if path == [] || node !in store || path[0] >= |store[node]| then EMPTY
    else if |path| == 1 then store[node][path[0]]
    else PlainWalk(store, store[node][path[0]].addr, path[1..])
  }

  /** No node above the lowest level holds a large mapping. */
  lemma NoLargeMappingAbove(lowest: nat, store: Store, place: map<nat, Place>, n: nat, i: nat)
    requires WellFormed(lowest, store, place) && n in place && i < ENTRY_COUNT
    requires |place[n].path| + lowest < TOP_LEVEL
    ensures |store[n]| == ENTRY_COUNT && !store[n][i].large
  {
    assert NodeOk(lowest, store, place, n) && SlotOk(store, place, n, i);
  }

  /** Indices of a's walk from the given level down to the lowest one. */
  ghost function WalkIndices(lowest: nat, level: nat, a: nat): seq<nat>
    requires lowest <= level <= TOP_LEVEL
  {
    [Index(a, level)] + if level == lowest then [] else WalkIndices(lowest, level - 1, a)
  }

  /** Testing entry 0 for a large mapping never cuts a lookup short. */
  lemma {:induction false} LookupIsPlainWalk(
    lowest: nat, store: Store, place: map<nat, Place>, n: nat, level: nat, a: nat)
    requires WellFormed(lowest, store, place) && n in place
    requires lowest <= level <= TOP_LEVEL && |place[n].path| == TOP_LEVEL - level
    ensures GetEntry(lowest, store, n, level, a) == PlainWalk(store, n, WalkIndices(lowest, level, a))
    decreases level
  {
    assert NodeOk(lowest, store, place, n);
    if level > lowest {
      NoLargeMappingAbove(lowest, store, place, n, 0);
      var i := Index(a, level);
      assert SlotOk(store, place, n, i);
      assert WalkIndices(lowest, level, a)[1..] == WalkIndices(lowest, level - 1, a);
      if store[n][i] != EMPTY {
        LookupIsPlainWalk(lowest, store, place, store[n][i].addr, level - 1, a);
      }
    }
  }

  /** At most one entry of all tables points to any node. */
  lemma OneParent(lowest: nat, store: Store, place: map<nat, Place>, m: nat, n: nat, i: nat, j: nat)
    requires WellFormed(lowest, store, place) && m in place && n in place
    requires |place[m].path| + lowest < TOP_LEVEL && |place[n].path| + lowest < TOP_LEVEL
    requires i < ENTRY_COUNT && j < ENTRY_COUNT
    requires |store[m]| == ENTRY_COUNT && |store[n]| == ENTRY_COUNT
    requires store[m][i].addr == store[n][j].addr != 0
    ensures m == n && i == j
  {
    assert NodeOk(lowest, store, place, m) && SlotOk(store, place, m, i);
    assert NodeOk(lowest, store, place, n) && SlotOk(store, place, n, j);
    var p, q := place[m].path, place[n].path;
    assert (p + [i])[..|p|] == p && (q + [j])[..|q|] == q;
    assert (p + [i])[|p|] == i && (q + [j])[|q|] == j;
    assert SamePlace(place, m, n);
  }

  /** m is reached from n by following the given indices through entries that are not persistent. */
  ghost predicate Owned(lowest: nat, store: Store, n: nat, level: nat, m: nat, path: seq<nat>)
    requires lowest <= level
    decreases level
  {
    && n in store
    && |store[n]| == ENTRY_COUNT
    && if path == [] then m == n
       else
         && lowest < level
         && path[0] < ENTRY_COUNT
         && store[n][path[0]].addr != 0
         && !store[n][path[0]].persistent
         && Owned(lowest, store, store[n][path[0]].addr, level - 1, m, path[1..])
  }

  /** The same, as a predicate that a path can witness. */
  ghost predicate Reaches(lowest: nat, store: Store, n: nat, level: nat, m: nat, path: seq<nat>)
    requires lowest <= level
  {
    Owned(lowest, store, n, level, m, path)
  }

  /** Deallocation frees exactly the nodes reachable through non-persistent entries. */
  lemma FreesExactlyOwned(lowest: nat, store: Store, n: nat, level: nat, m: nat)
    requires lowest <= level
    ensures m in FreeList(lowest, store, n, level) <==> exists path :: Reaches(lowest, store, n, level, m, path)
  {
    if m in FreeList(lowest, store, n, level) {
      var path := FreedIsOwned(lowest, store, n, level, m);
      assert Reaches(lowest, store, n, level, m, path);
    }
    if path :| Reaches(lowest, store, n, level, m, path) {
      OwnedIsFreed(lowest, store, n, level, m, path);
    }
  }

  lemma {:induction false} FreedIsOwned(lowest: nat, store: Store, n: nat, level: nat, m: nat) returns (path: seq<nat>)
    requires lowest <= level && m in FreeList(lowest, store, n, level)
    ensures Owned(lowest, store, n, level, m, path)
    decreases level
  {
    path := [];
    if m != n {
      var k := FreedBelowEntry(lowest, store, n, level, m, ENTRY_COUNT);
      var rest := FreedIsOwned(lowest, store, store[n][k].addr, level - 1, m);
      path := [k] + rest;
      assert path[1..] == rest;
    }
  }

  lemma {:induction false} FreedBelowEntry(lowest: nat, store: Store, n: nat, level: nat, m: nat, k: nat)
    returns (i: nat)
    requires lowest < level && n in store && |store[n]| == ENTRY_COUNT && k <= ENTRY_COUNT
    requires m in FreeBelow(lowest, store, n, level, k)
    ensures i < k && m in FreeEntry(lowest, store, n, level, i)
  {
    if m in FreeEntry(lowest, store, n, level, k - 1) {
      i := k - 1;
    } else {
      i := FreedBelowEntry(lowest, store, n, level, m, k - 1);
    }
  }

  lemma {:induction false} OwnedIsFreed(lowest: nat, store: Store, n: nat, level: nat, m: nat, path: seq<nat>)
    requires lowest <= level && Owned(lowest, store, n, level, m, path)
    ensures m in FreeList(lowest, store, n, level)
    decreases level
  {
    if path != [] {
      OwnedIsFreed(lowest, store, store[n][path[0]].addr, level - 1, m, path[1..]);
      FreeBelowHasEntry(lowest, store, n, level, m, path[0], ENTRY_COUNT);
    }
  }

  lemma {:induction false} FreeBelowHasEntry(lowest: nat, store: Store, n: nat, level: nat, m: nat, i: nat, k: nat)
    requires lowest < level && n in store && |store[n]| == ENTRY_COUNT && i < k <= ENTRY_COUNT
    requires m in FreeEntry(lowest, store, n, level, i)
    ensures m in FreeBelow(lowest, store, n, level, k)
  {
    if i < k - 1 {
      FreeBelowHasEntry(lowest, store, n, level, m, i, k - 1);
    }
  }

  /** Deallocation frees no node twice. */
  lemma {:induction false} FreesOnce(lowest: nat, store: Store, place: map<nat, Place>, n: nat, level: nat)
    requires WellFormed(lowest, store, place) && n in place
    requires lowest <= level <= TOP_LEVEL && |place[n].path| == TOP_LEVEL - level
    ensures NoDuplicates(FreeList(lowest, store, n, level))
    decreases level, 1, 0
  {
    assert NodeOk(lowest, store, place, n);
    if level > lowest {
      FreesOnceBelow(lowest, store, place, n, level, ENTRY_COUNT);
      FreeBelowPlaces(lowest, store, place, n, level, ENTRY_COUNT);
    }
  }

  lemma {:induction false} FreesOnceBelow(
    lowest: nat, store: Store, place: map<nat, Place>, n: nat, level: nat, k: nat)
    requires WellFormed(lowest, store, place) && n in place && n in store && |store[n]| == ENTRY_COUNT
    requires lowest < level <= TOP_LEVEL && |place[n].path| == TOP_LEVEL - level && k <= ENTRY_COUNT
    ensures NoDuplicates(FreeBelow(lowest, store, n, level, k))
    decreases level, 0, k
  {
    if k > 0 {
      FreesOnceBelow(lowest, store, place, n, level, k - 1);
      FreeBelowPlaces(lowest, store, place, n, level, k - 1);
      assert NodeOk(lowest, store, place, n) && SlotOk(store, place, n, k - 1);
      var e := store[n][k - 1];
      if !e.persistent && e.addr != 0 {
        FreesOnce(lowest, store, place, e.addr, level - 1);
        FreeListPlaces(lowest, store, place, e.addr, level - 1);
        assert forall x :: x in FreeEntry(lowest, store, n, level, k - 1) ==>
            x in place && place[n].path + [k - 1] <= place[x].path;
        NoDuplicatesConcat(FreeBelow(lowest, store, n, level, k - 1), FreeEntry(lowest, store, n, level, k - 1));
      }
    }
  }

  /** The node that sits where the first k steps of m's path lead. */
  lemma {:induction false} Ancestor(lowest: nat, store: Store, place: map<nat, Place>, m: nat, k: nat) returns (x: nat)
    requires WellFormed(lowest, store, place) && m in place && k <= |place[m].path|
    ensures x in place && place[x] == Place(place[m].root, place[m].kernel, place[m].path[..k])
    decreases |place[m].path|
  {
    if k == |place[m].path| {
      assert place[m].path[..k] == place[m].path;
      x := m;
    } else {
      assert Attached(store, place, m);
      var p :| p in place && IsParent(store, place, p, m);
      assert place[p].path[..k] == place[m].path[..k];
      x := Ancestor(lowest, store, place, p, k);
    }
  }

  /** A node below n hangs below the entry of n that its path names. */
  lemma NextOnPath(lowest: nat, store: Store, place: map<nat, Place>, n: nat, m: nat) returns (x: nat)
    requires WellFormed(lowest, store, place) && n in place && m in place
    requires place[m].root == place[n].root && place[m].kernel == place[n].kernel && place[n].path < place[m].path
    ensures x in place && place[x] == Place(place[m].root, place[m].kernel, place[m].path[..|place[n].path| + 1])
    ensures n in store && |store[n]| == ENTRY_COUNT && place[m].path[|place[n].path|] < ENTRY_COUNT
    ensures store[n][place[m].path[|place[n].path|]].addr == x != 0
  {
    var k := |place[n].path|;
    x := Ancestor(lowest, store, place, m, k + 1);
    assert Attached(store, place, x);
    var p :| p in place && IsParent(store, place, p, x);
    assert place[x].path[..k] == place[n].path;
    assert SamePlace(place, p, n);
    assert NodeOk(lowest, store, place, n) && NodeOk(lowest, store, place, x);
  }

  /** Below the top level everything is freed. */
  lemma {:induction false} FreedBelowTop(lowest: nat, store: Store, place: map<nat, Place>, n: nat, level: nat, m: nat)
    requires WellFormed(lowest, store, place) && n in place && m in place
    requires lowest <= level < TOP_LEVEL && |place[n].path| == TOP_LEVEL - level
    requires place[m].root == place[n].root && place[m].kernel == place[n].kernel && place[n].path <= place[m].path
    ensures m in FreeList(lowest, store, n, level)
    decreases level
  {
    assert NodeOk(lowest, store, place, n) && NodeOk(lowest, store, place, m);
    if place[m].path == place[n].path {
      assert SamePlace(place, m, n);
    } else {
      var x := NextOnPath(lowest, store, place, n, m);
      var i := place[m].path[|place[n].path|];
      assert SlotOk(store, place, n, i);
      FreedBelowTop(lowest, store, place, x, level - 1, m);
      FreeBelowHasEntry(lowest, store, n, level, m, i, ENTRY_COUNT);
    }
  }

  /** Deallocating a table leaves allocated exactly the nodes below its persistent top-level entries. */
  lemma KeptBelowPersistent(lowest: nat, store: Store, place: map<nat, Place>, root: nat, m: nat)
    requires lowest <= 1 && WellFormed(lowest, store, place) && IsRoot(place, root) && m in place
    requires place[m].root == root
    ensures root in store && |store[root]| == ENTRY_COUNT
    ensures place[m].path != [] ==> place[m].path[0] < ENTRY_COUNT
    ensures m in FreeList(lowest, store, root, TOP_LEVEL) <==>
            place[m].path == [] || !store[root][place[m].path[0]].persistent
  {
    assert NodeOk(lowest, store, place, root) && Attached(store, place, root);
    var top := Ancestor(lowest, store, place, m, 0);
    assert Attached(store, place, top) && top == root;
    if place[m].path == [] {
      assert SamePlace(place, m, root);
    } else {
      var x := NextOnPath(lowest, store, place, root, m);
      var i := place[m].path[0];
      assert SlotOk(store, place, root, i);
      if store[root][i].persistent {
        NotFreed(lowest, store, place, root, m);
      } else {
        FreedBelowTop(lowest, store, place, x, TOP_LEVEL - 1, m);
        FreeBelowHasEntry(lowest, store, root, TOP_LEVEL, m, i, ENTRY_COUNT);
      }
    }
  }

  lemma NotFreed(lowest: nat, store: Store, place: map<nat, Place>, root: nat, m: nat)
    requires lowest <= 1 && WellFormed(lowest, store, place) && IsRoot(place, root) && m in place
    requires root in store && |store[root]| == ENTRY_COUNT
    requires place[m].path != [] && place[m].path[0] < ENTRY_COUNT && store[root][place[m].path[0]].persistent
    ensures m !in FreeList(lowest, store, root, TOP_LEVEL)
  {
    if m in FreeBelow(lowest, store, root, TOP_LEVEL, ENTRY_COUNT) {
      var k := FreedBelowEntry(lowest, store, root, TOP_LEVEL, m, ENTRY_COUNT);
      assert NodeOk(lowest, store, place, root) && SlotOk(store, place, root, k);
      FreeListPlaces(lowest, store, place, store[root][k].addr, TOP_LEVEL - 1);
    }
  }

  // --- Access rights ------------------------------------------------------------------

  /** Where an access goes, and which accesses are allowed. */
  datatype Access = Access(physical: nat, writable: bool, user: bool) | Fault

  /**
  The processor's view (sections 4.5 and 4.6 of the Intel SDM Volume 3A), which knows nothing of the
  kernel's page size: the walk goes down to level 0 unless an entry maps a large page, and rights are
  combined along it.
  */
  ghost function Effective(store: Store, node: nat, level: nat, a: nat): Access
    requires level <= TOP_LEVEL
    decreases level
  {
    if node !in store || |store[node]| != ENTRY_COUNT then Fault
    else
      var e := store[node][Index(a, level)];
      if !e.present then Fault
      else if level == 0 || e.large then Access(e.addr + a % Coverage(level), e.writable, e.user)
      else
        match Effective(store, e.addr, level - 1, a)
        case Fault => Fault
        case Access(p, w, u) => Access(p, e.writable && w, e.user && u)
  }

  /** The indices of the walk and the offset in the page are the digits of the address. */
  lemma IndicesAreDigits(a: nat)
    requires a < ADDRESS_LIMIT
    ensures a == Index(a, 3) * 0x80_0000_0000 + Index(a, 2) * 0x4000_0000 + Index(a, 1) * 0x20_0000
                 + Index(a, 0) * 0x1000 + a % 0x1000
  {
    Arith.Requotient(a, 0x1000, 512);
    Arith.Requotient(a, 0x20_0000, 512);
    Arith.Requotient(a, 0x4000_0000, 512);
    var p0, p1, p2, p3 := a / 0x1000, a / 0x20_0000, a / 0x4000_0000, a / 0x80_0000_0000;
    assert p0 == p1 * 512 + p0 % 512 && p1 == p2 * 512 + p1 % 512 && p2 == p3 * 512 + p2 % 512;
    assert p3 < 512 by { Arith.QuotientBelow(a, 0x80_0000_0000, 512); }
    assert p3 % 512 == p3;
  }

  /** A leaf that the processor takes for one: large unless pages are 4 KiB. */
  predicate IsLeaf(lowest: nat, e: Entry) {
    e.present ==> (e.large <==> lowest != 0)
  }

  function LeafAccess(lowest: nat, kernel: bool, e: Entry, a: nat): Access
    requires lowest <= TOP_LEVEL
  {
    if e.present then Access(e.addr + a % Coverage(lowest), e.writable, !kernel && e.user) else Fault
  }

  /** The effective right is the leaf's own one, less user access in a kernel table. */
  lemma {:induction false} EffectiveIsLeaf(
    lowest: nat, store: Store, place: map<nat, Place>, n: nat, level: nat, a: nat)
    requires WellFormed(lowest, store, place) && n in place
    requires lowest <= level <= TOP_LEVEL && |place[n].path| == TOP_LEVEL - level
    requires IsLeaf(lowest, GetEntry(lowest, store, n, level, a))
    ensures var e := GetEntry(lowest, store, n, level, a);
            Effective(store, n, level, a) == LeafAccess(lowest, level > lowest && place[n].kernel, e, a)
    decreases level
  {
    assert NodeOk(lowest, store, place, n);
    if level > lowest {
      NoLargeMappingAbove(lowest, store, place, n, 0);
      var i := Index(a, level);
      assert SlotOk(store, place, n, i);
      if store[n][i] != EMPTY {
        EffectiveIsLeaf(lowest, store, place, store[n][i].addr, level - 1, a);
      }
    }
  }

  /**
  What a permission stands for.  Memory is mapped to itself.  A kernel table gives the kernel what is
  asked and user mode nothing; in a compartment's table the kernel's own memory can be read, and
  is writable, for ring 0, only if that is forced.
  */
  function Granted(kernel: bool, perm: Permission, a: nat): Access {
    match perm
    case NoAccess => Fault
    case KernelRead => Access(a, false, !kernel)
    case KernelWrite => Access(a, kernel, !kernel)
    case ForceKernelWrite => Access(a, true, false)
    case CompartmentWrite => Access(a, true, !kernel)
    case CompartmentRead => Access(a, false, !kernel)
  }

  lemma NewEntryGrants(lowest: nat, kernel: bool, perm: Permission, a: nat)
    requires lowest <= 1
    ensures IsLeaf(lowest, NewEntry(lowest, Map(kernel, perm), a))
    ensures LeafAccess(lowest, kernel, NewEntry(lowest, Map(kernel, perm), a), a) == Granted(kernel, perm, a)
  {
    var c := Coverage(lowest);
    assert a == a / c * c + a % c;
  }

  /** A mapped page leads to itself and has exactly the requested right. */
  lemma MappingGrants(
    lowest: nat, store: Store, place: map<nat, Place>, s': TableState, root: nat, kernel: bool,
    base: nat, size: nat, perm: Permission, a: nat)
    requires lowest <= 1 && IsRoot(place, root) && place[root].kernel == kernel
    requires WellFormed(lowest, s'.store, s'.place)
    requires Remapped(lowest, store, place, s'.store, s'.place, root, base, size, Map(kernel, perm))
    requires base <= a < base + size && a < ADDRESS_LIMIT
    ensures Effective(s'.store, root, TOP_LEVEL, a) == Granted(kernel, perm, a)
  {
    assert IsRoot(s'.place, root);
    assert Lookup(lowest, s'.store, root, a) == NewEntry(lowest, Map(kernel, perm), a);
    NewEntryGrants(lowest, kernel, perm, a);
    EffectiveIsLeaf(lowest, s'.store, s'.place, root, TOP_LEVEL, a);
  }

  /** What the operations on a table, in order, grant: the last one that covers the address decides. */
  ghost function FlatAccess(root: nat, kernel: bool, events: seq<Event>, a: nat): Access {
    if events == [] then Fault else
      var last := events[|events| - 1];
      if last.root == root && last.op.base <= a < last.op.base + last.op.size then
        match last.op
        case MapOp(_, _, perm) => Granted(kernel, perm, a)
        case PredefineOp(_, _, perm) => Granted(kernel, perm, a)
        case UnmapOp(_, _) => Fault
      else FlatAccess(root, kernel, events[..|events| - 1], a)
  }

  lemma {:induction false} FlatGrants(lowest: nat, root: nat, kernel: bool, events: seq<Event>, a: nat)
    requires lowest <= 1
    requires forall i :: 0 <= i < |events| && events[i].root == root ==> events[i].kernel == kernel
    ensures IsLeaf(lowest, Flat(lowest, root, EMPTY, events, a))
    ensures LeafAccess(lowest, kernel, Flat(lowest, root, EMPTY, events, a), a) == FlatAccess(root, kernel, events, a)
  {
    if events != [] {
      var n := |events| - 1;
      FlatGrants(lowest, root, kernel, events[..n], a);
      if !events[n].op.UnmapOp? { NewEntryGrants(lowest, events[n].kernel, events[n].op.perm, a); }
    }
  }

  /** No page of a kernel table is accessible in user mode, whatever its leaf says. */
  lemma KernelTableHasNoUserPage(lowest: nat, store: Store, place: map<nat, Place>, root: nat, a: nat)
    requires lowest <= 1 && WellFormed(lowest, store, place) && IsRoot(place, root) && place[root].kernel
    ensures var access := Effective(store, root, TOP_LEVEL, a); access.Access? ==> !access.user
  {
    assert NodeOk(lowest, store, place, root) && SlotOk(store, place, root, Index(a, TOP_LEVEL));
  }
}
