/**
Nodes and walks of the x86-64 4-level page tables (section 4.5 of the Intel SDM
Volume 3A), as used by guest-verona-rt/arch/x86_64/pagetable.cc.

Table nodes live in a store that maps a node's address to its 512 entries, so
entries are overwritten in place and two entries could in principle share a
node.  WellFormed says that they never do.
*/
module Paging {
  import opened Common
  import opened Arith

  datatype Permission =
    | NoAccess
    | KernelRead
    | KernelWrite
    | ForceKernelWrite
    | CompartmentWrite
    | CompartmentRead

  /** The fields of a 64-bit entry that the code reads (see PteBits for the encoding). */
  datatype Entry = Entry(
    addr: nat, present: bool, writable: bool, user: bool, large: bool, persistent: bool)

  const EMPTY := Entry(0, false, false, false, false, false)
  const ENTRY_COUNT: nat := 512
  const TOP_LEVEL: nat := 3

  type Store = map<nat, seq<Entry>>

  // --- Index and coverage arithmetic -------------------------------------

  /** Bytes covered by one entry of a node at the given level: 2^(12 + 9 * level). */
  function Coverage(level: nat): (c: nat)
    requires level <= TOP_LEVEL + 1
    ensures c > 0
  {
    if level == 0 then 0x1000
    else if level == 1 then 0x20_0000
    else if level == 2 then 0x4000_0000
    else if level == 3 then 0x80_0000_0000
    else 0x1_0000_0000_0000
  }

  function Index(a: nat, level: nat): (i: nat)
    requires level <= TOP_LEVEL
    ensures i < ENTRY_COUNT
  {
    (a / Coverage(level)) % ENTRY_COUNT
  }

  /** align_up(address + 1, coverage) */
  function NextBase(a: nat, level: nat): (b: nat)
    requires level <= TOP_LEVEL
    ensures b > a
  {
    NextBaseAbove(a, level);
    (a + Coverage(level)) / Coverage(level) * Coverage(level)
  }

  lemma NextBaseAbove(a: nat, level: nat)
    requires level <= TOP_LEVEL
    ensures (a + Coverage(level)) / Coverage(level) * Coverage(level) > a
  {
  }

  /** The first k indices of the walk for address a. */
  function AddrPath(a: nat, k: nat): (p: seq<nat>)
    requires k <= 4
    ensures |p| == k
  {
    if k == 0 then [] else AddrPath(a, k - 1) + [Index(a, TOP_LEVEL + 1 - k)]
  }

  /** lo is the lowest address below a node that sits at the given path. */
  ghost predicate StartsAt(path: seq<nat>, level: nat, lo: nat) {
    && level <= TOP_LEVEL
    && |path| == TOP_LEVEL - level
    && lo % Coverage(level + 1) == 0
    && lo < ADDRESS_LIMIT
    && path == AddrPath(lo, TOP_LEVEL - level)
  }

  lemma CoverageStep(level: nat)
    requires level <= TOP_LEVEL
    ensures Coverage(level + 1) == ENTRY_COUNT * Coverage(level)
  {
  }

  /** Inside a node's range, index i is exactly the i-th stretch of Coverage(level) bytes. */
  lemma IndexRange(lo: nat, level: nat, a: nat)
    requires level <= TOP_LEVEL && lo % Coverage(level + 1) == 0
    requires lo <= a < lo + Coverage(level + 1)
    ensures lo + Index(a, level) * Coverage(level) <= a
    ensures NextBase(a, level) == lo + (Index(a, level) + 1) * Coverage(level)
    ensures NextBase(a, level) <= lo + Coverage(level + 1)
  {
    var c, m := Coverage(level), lo / Coverage(level + 1);
    CoverageStep(level);
    var q := (a - lo) / c;
    var r := (a - lo) % c;
    assert lo == m * (ENTRY_COUNT * c);
    if q >= ENTRY_COUNT {
      MulMonotone(ENTRY_COUNT, q, c);
      assert false;
    }
    assert a == (m * ENTRY_COUNT + q) * c + r;
    QuotientUnique(a, c, m * ENTRY_COUNT + q, r);
    QuotientUnique(m * ENTRY_COUNT + q, ENTRY_COUNT, m, q);
    assert a + c == (m * ENTRY_COUNT + q + 1) * c + r;
    QuotientUnique(a + c, c, m * ENTRY_COUNT + q + 1, r);
    MulMonotone(q + 1, ENTRY_COUNT, c);
    assert NextBase(a, level) == (m * ENTRY_COUNT + q + 1) * c;
  }

  /** Above a node's own level, all its addresses have the same index. */
  lemma SameSlot(lo: nat, level: nat, a: nat, above: nat)
    requires level < above <= TOP_LEVEL && lo % Coverage(level + 1) == 0
    requires lo <= a < lo + Coverage(level + 1)
    ensures a / Coverage(above) == lo / Coverage(above)
    decreases above
  {
    if above == level + 1 {
      var c := Coverage(above);
      QuotientUnique(a, c, lo / c, a - lo);
    } else {
      SameSlot(lo, level, a, above - 1);
      CoverageStep(above - 1);
      Requotient(a, Coverage(above - 1), ENTRY_COUNT);
      Requotient(lo, Coverage(above - 1), ENTRY_COUNT);
    }
  }

  /** Addresses below one node share its path. */
  lemma PathRange(path: seq<nat>, level: nat, lo: nat, a: nat)
    requires StartsAt(path, level, lo) && lo <= a < lo + Coverage(level + 1)
    ensures AddrPath(a, TOP_LEVEL - level) == path
  {
    SamePrefix(level, lo, a, TOP_LEVEL - level);
  }

  lemma {:induction false} SamePrefix(level: nat, lo: nat, a: nat, k: nat)
    requires level <= TOP_LEVEL && k <= TOP_LEVEL - level && lo % Coverage(level + 1) == 0
    requires lo <= a < lo + Coverage(level + 1)
    ensures AddrPath(a, k) == AddrPath(lo, k)
  {
    if k > 0 {
      SamePrefix(level, lo, a, k - 1);
      SameSlot(lo, level, a, TOP_LEVEL + 1 - k);
    }
  }

  /** An address in the node's range falls below the same entry as addr iff it is in that entry's stretch. */
  lemma SlotRange(lo: nat, level: nat, addr: nat, a: nat)
    requires level <= TOP_LEVEL && lo % Coverage(level + 1) == 0
    requires lo <= addr < lo + Coverage(level + 1) && lo <= a < lo + Coverage(level + 1)
    ensures Index(a, level) == Index(addr, level) <==>
              lo + Index(addr, level) * Coverage(level) <= a < NextBase(addr, level)
  {
    IndexRange(lo, level, addr);
    IndexRange(lo, level, a);
    var c, i, j := Coverage(level), Index(addr, level), Index(a, level);
    if j < i {
      MulMonotone(j + 1, i, c);
    } else if j > i {
      MulMonotone(i + 1, j, c);
    }
  }

  /** The child below the entry for addr starts at that entry's stretch. */
  lemma ChildStart(path: seq<nat>, level: nat, lo: nat, addr: nat)
    requires StartsAt(path, level, lo) && 0 < level && lo <= addr < lo + Coverage(level + 1)
    ensures StartsAt(path + [Index(addr, level)], level - 1, lo + Index(addr, level) * Coverage(level))
    ensures NextBase(addr, level) == lo + Index(addr, level) * Coverage(level) + Coverage(level)
  {
    var c, i := Coverage(level), Index(addr, level);
    var lo' := lo + i * c;
    IndexRange(lo, level, addr);
    CoverageStep(level);
    var m := lo / Coverage(level + 1);
    assert lo' == (m * ENTRY_COUNT + i) * c by { Expand(m, ENTRY_COUNT, i, c); }
    QuotientUnique(lo', c, m * ENTRY_COUNT + i, 0);
    assert lo' < NextBase(addr, level);
    SlotRange(lo, level, addr, lo');
    PathRange(path, level, lo, lo');
    RangeFits(level, lo);
  }

  lemma ChildRange(path: seq<nat>, level: nat, lo: nat, addr: nat, size: nat) returns (childLo: nat)
    requires StartsAt(path, level, lo) && 0 < level && lo <= addr < lo + Coverage(level + 1)
    requires addr + size <= NextBase(addr, level)
    ensures childLo == lo + Index(addr, level) * Coverage(level)
    ensures StartsAt(path + [Index(addr, level)], level - 1, childLo)
    ensures childLo <= addr && addr + size <= childLo + Coverage(level)
  {
    childLo := lo + Index(addr, level) * Coverage(level);
    ChildStart(path, level, lo, addr);
    IndexRange(lo, level, addr);
  }

  lemma RangeFits(level: nat, lo: nat)
    requires level <= TOP_LEVEL && lo % Coverage(level + 1) == 0 && lo < ADDRESS_LIMIT
    ensures lo + Coverage(level + 1) <= ADDRESS_LIMIT
  {
  }

  function PageBase(lowest: nat, a: nat): nat
    requires lowest <= TOP_LEVEL
  {
    a / Coverage(lowest) * Coverage(lowest)
  }

  /** Entry stretches are made of whole pages. */
  lemma NextBasePageAligned(lowest: nat, level: nat, a: nat)
    requires lowest <= level <= TOP_LEVEL
    ensures NextBase(a, level) % Coverage(lowest) == 0
  {
    Multiple(lowest, level, (a + Coverage(level)) / Coverage(level));
  }

  lemma {:induction false} Multiple(lowest: nat, level: nat, q: nat)
    requires lowest <= level <= TOP_LEVEL
    ensures q * Coverage(level) % Coverage(lowest) == 0
    decreases level
  {
    if level == lowest {
      QuotientUnique(q * Coverage(level), Coverage(level), q, 0);
    } else {
      CoverageStep(level - 1);
      var c := Coverage(level - 1);
      assert q * (ENTRY_COUNT * c) == (q * ENTRY_COUNT) * c by { Expand(q, ENTRY_COUNT, 0, c); }
      Multiple(lowest, level - 1, q * ENTRY_COUNT);
    }
  }

  // --- Entries and the walk ----------------------------------------------

  function NextLevelEntry(kernel: bool, node: nat, persistent: bool): Entry {
    Entry(node, true, true, !kernel, false, persistent)
  }

  function LeafEntry(kernel: bool, addr: nat, perm: Permission, persistent: bool, level: nat): Entry {
    match perm
    case NoAccess => Entry(addr, false, false, false, level != 0, persistent)
    case KernelRead => Entry(addr, true, false, !kernel, level != 0, persistent)
    case KernelWrite => Entry(addr, true, kernel, !kernel, level != 0, persistent)
    case ForceKernelWrite => Entry(addr, true, true, false, level != 0, persistent)
    case CompartmentWrite => Entry(addr, true, true, true, level != 0, persistent)
    case CompartmentRead => Entry(addr, true, false, true, level != 0, persistent)
  }

  /** The null pointer is never a key of the store, so a null root reads as no node. */
  function GetEntry(lowest: nat, store: Store, node: nat, level: nat, a: nat): Entry
    requires lowest <= level <= TOP_LEVEL
    decreases level
  {
    if node !in store || |store[node]| != ENTRY_COUNT then EMPTY
    else
      var entry := store[node][Index(a, level)];
      if level == lowest || store[node][0].large then entry
      else GetEntry(lowest, store, entry.addr, level - 1, a)
  }

  // --- Well-formed stores -------------------------------------------------

  /** Where a node sits: its table's root, the table's kind, and the indices leading to it. */
  datatype Place = Place(root: nat, kernel: bool, path: seq<nat>)

  /** An entry above the lowest level is empty or a link, and only a root's links are persistent. */
  ghost predicate SlotOk(store: Store, place: map<nat, Place>, n: nat, i: nat)
    requires n in place && n in store && i < |store[n]|
  {
    var e := store[n][i];
    e == EMPTY ||
    (&& e.addr in place
     && place[e.addr] == Place(place[n].root, place[n].kernel, place[n].path + [i])
     && e == NextLevelEntry(place[n].kernel, e.addr, e.persistent)
     && (e.persistent ==> place[n].path == []))
  }

  ghost predicate NodeOk(lowest: nat, store: Store, place: map<nat, Place>, n: nat)
    requires n in place
  {
    && n != 0
    && n in store
    && |store[n]| == ENTRY_COUNT
    && |place[n].path| + lowest <= TOP_LEVEL
    && (|place[n].path| + lowest < TOP_LEVEL ==>
          forall i {:trigger SlotOk(store, place, n, i)} :: 0 <= i < ENTRY_COUNT ==> SlotOk(store, place, n, i))
  }

  ghost predicate SamePlace(place: map<nat, Place>, m: nat, n: nat) {
    m in place && n in place && place[m] == place[n]
  }

  ghost predicate IsParent(store: Store, place: map<nat, Place>, p: nat, m: nat)
    requires m in place && place[m].path != []
  {
    var k := |place[m].path| - 1;
    var i := place[m].path[k];
    && p in place
    && p in store
    && place[p] == Place(place[m].root, place[m].kernel, place[m].path[..k])
    && i < |store[p]|
    && store[p][i].addr == m
  }

  ghost predicate Attached(store: Store, place: map<nat, Place>, m: nat)
    requires m in place
  {
    if place[m].path == [] then place[m].root == m
    else exists p :: p in place && IsParent(store, place, p, m)
  }

  /**
  Every entry above the lowest level is empty or points to the one node placed below it,
  and every node but a root hangs below its parent: the nodes form disjoint trees.
  */
  ghost predicate WellFormed(lowest: nat, store: Store, place: map<nat, Place>) {
    && 0 !in store
    && place.Keys <= store.Keys
    && (forall n {:trigger Attached(store, place, n)} :: n in place ==> Attached(store, place, n))
    && (forall n {:trigger NodeOk(lowest, store, place, n)} :: n in place ==> NodeOk(lowest, store, place, n))
    && (forall m, n {:trigger SamePlace(place, m, n)} :: SamePlace(place, m, n) ==> m == n)
  }

  /** The node at place p lies on the walk for a that continues from the given level of a table. */
  ghost predicate OnWalk(p: Place, root: nat, level: nat, a: nat) {
    && p.root == root
    && level <= TOP_LEVEL
    && TOP_LEVEL - level <= |p.path| <= TOP_LEVEL
    && p.path == AddrPath(a, |p.path|)
  }

  /** A walk depends only on the nodes on its own path. */
  lemma {:induction false} WalkFrame(
    lowest: nat, store: Store, store': Store, place: map<nat, Place>, n: nat, level: nat, a: nat)
    requires WellFormed(lowest, store, place)
    requires n in place && lowest <= level <= TOP_LEVEL
    requires place[n].path == AddrPath(a, TOP_LEVEL - level)
    requires forall m :: m in place && OnWalk(place[m], place[n].root, level, a) ==>
                           m in store' && store'[m] == store[m]
    requires 0 !in store'
    ensures GetEntry(lowest, store', n, level, a) == GetEntry(lowest, store, n, level, a)
    decreases level
  {
    assert NodeOk(lowest, store, place, n);
    assert store'[n] == store[n];
    if level > lowest {
      assert SlotOk(store, place, n, 0);
      var i := Index(a, level);
      assert SlotOk(store, place, n, i);
      var e := store[n][i];
      if e != EMPTY {
        assert place[e.addr].path == AddrPath(a, TOP_LEVEL - level + 1);
        WalkFrame(lowest, store, store', place, e.addr, level - 1, a);
      }
    }
  }

  /** A change confined to the nodes at or below a path of one table. */
  ghost predicate ChangedBelow(
    store: Store, place: map<nat, Place>, store': Store, place': map<nat, Place>, root: nat, path: seq<nat>)
  {
    && (forall m :: m in place ==> m in place' && place'[m] == place[m])
    && (forall m :: m in store ==> m in store')
    && (forall m :: m in store && !(m in place && place[m].root == root && path <= place[m].path) ==>
                      store'[m] == store[m])
    && (forall m :: m in place' && m !in place ==> m !in store && place'[m].root == root && path <= place'[m].path)
  }

  lemma ChangedBelowTrans(
    store: Store, place: map<nat, Place>, store1: Store, place1: map<nat, Place>,
    store2: Store, place2: map<nat, Place>, root: nat, path: seq<nat>, path2: seq<nat>)
    requires ChangedBelow(store, place, store1, place1, root, path)
    requires ChangedBelow(store1, place1, store2, place2, root, path2)
    requires path <= path2
    ensures ChangedBelow(store, place, store2, place2, root, path)
  {
  }

  lemma AddrPathPrefix(a: nat, j: nat, k: nat)
    requires j <= k <= 4
    ensures AddrPath(a, k)[..j] == AddrPath(a, j)
  {
    if j < k {
      AddrPathPrefix(a, j, k - 1);
      assert AddrPath(a, k)[..j] == AddrPath(a, k - 1)[..j];
    }
  }

  /** Lookups whose walk avoids the changed path are unchanged. */
  lemma WalkOutside(
    lowest: nat, store: Store, place: map<nat, Place>, store': Store, place': map<nat, Place>,
    root: nat, path: seq<nat>, n: nat, level: nat, a: nat)
    requires WellFormed(lowest, store, place) && 0 !in store'
    requires ChangedBelow(store, place, store', place', root, path)
    requires n in place && lowest <= level <= TOP_LEVEL
    requires place[n].path == AddrPath(a, TOP_LEVEL - level)
    requires |path| <= 4
    requires place[n].root != root || path != AddrPath(a, |path|)
    ensures GetEntry(lowest, store', n, level, a) == GetEntry(lowest, store, n, level, a)
  {
    forall m | m in place && OnWalk(place[m], place[n].root, level, a)
      ensures m in store' && store'[m] == store[m]
    {
      assert NodeOk(lowest, store, place, m);
      if place[m].root == root && path <= place[m].path {
        AddrPathPrefix(a, |path|, |place[m].path|);
        assert false;
      }
    }
    WalkFrame(lowest, store, store', place, n, level, a);
  }

  lemma FreshPage(store: Store)
    ensures exists n: nat :: n > 0 && n % 0x1000 == 0 && n !in store
  {
    var bound := KeyBound(store.Keys);
    var n := bound * 0x1000 + 0x1000;
    assert n > 0 && n % 0x1000 == 0 && n !in store;
  }

  ghost function KeyBound(keys: set<nat>): (b: nat)
    ensures forall k :: k in keys ==> k <= b
  {
    if keys == {} then 0 else
      var k :| k in keys;
      var rest := KeyBound(keys - {k});
      assert forall x :: x in keys ==> x == k || x in keys - {k};
      if k > rest then k else rest
  }

  // --- Composing updates ----------------------------------------------------

  /** What happens to a range; leaves are never persistent, since the type is dropped below the top level. */
  datatype Change = Map(kernel: bool, perm: Permission) | Unmap

  function NewEntry(lowest: nat, change: Change, a: nat): Entry
    requires lowest <= TOP_LEVEL
  {
    match change
    case Map(kernel, perm) => LeafEntry(kernel, PageBase(lowest, a), perm, false, lowest)
    case Unmap => EMPTY
  }

  function Min(x: nat, y: nat): nat {
    if x < y then x else y
  }

  /** From node n, the pages in [from, to) now read as the change says and all others as before. */
  ghost predicate Updated(
    lowest: nat, store: Store, store': Store, n: nat, level: nat, lo: nat, from: nat, to: nat, change: Change)
    requires lowest <= level <= TOP_LEVEL
  {
    forall a: nat {:trigger GetEntry(lowest, store', n, level, a)} ::
      lo <= a < lo + Coverage(level + 1) ==>
        GetEntry(lowest, store', n, level, a) ==
          if from <= a < to then NewEntry(lowest, change, a) else GetEntry(lowest, store, n, level, a)
  }

  lemma UpdatedTrans(
    lowest: nat, store: Store, store1: Store, store2: Store, n: nat, level: nat, lo: nat,
    from: nat, mid: nat, to: nat, change: Change)
    requires lowest <= level <= TOP_LEVEL && from <= mid <= to
    requires Updated(lowest, store, store1, n, level, lo, from, mid, change)
    requires Updated(lowest, store1, store2, n, level, lo, mid, to, change)
    ensures Updated(lowest, store, store2, n, level, lo, from, to, change)
  {
  }

  lemma UpdatedAfterSame(
    lowest: nat, store: Store, store1: Store, store2: Store, n: nat, level: nat, lo: nat,
    from: nat, to: nat, change: Change)
    requires lowest <= level <= TOP_LEVEL
    requires Updated(lowest, store, store1, n, level, lo, 0, 0, Unmap)
    requires Updated(lowest, store1, store2, n, level, lo, from, to, change)
    ensures Updated(lowest, store, store2, n, level, lo, from, to, change)
  {
  }

  /** An update below one child is an update of the whole node. */
  lemma UpdatedBelow(
    lowest: nat, store: Store, place: map<nat, Place>, store': Store, place': map<nat, Place>,
    n: nat, level: nat, lo: nat, childLo: nat, i: nat, child: nat, from: nat, to: nat, change: Change)
    requires WellFormed(lowest, store, place) && WellFormed(lowest, store', place')
    requires n in place && lowest < level && StartsAt(place[n].path, level, lo)
    requires lo <= from < lo + Coverage(level + 1) && i == Index(from, level) && to <= NextBase(from, level)
    requires |store[n]| == ENTRY_COUNT && store[n][i].addr == child && child in place
    requires ChangedBelow(store, place, store', place', place[n].root, place[n].path + [i])
    requires childLo == lo + i * Coverage(level)
    requires Updated(lowest, store, store', child, level - 1, childLo, from, to, change)
    ensures Updated(lowest, store, store', n, level, lo, from, to, change)
  {
    ghost var p := place[n];
    assert store'[n] == store[n];
    assert NodeOk(lowest, store, place, n) && SlotOk(store, place, n, 0);
    IndexRange(lo, level, from);
    ChildStart(p.path, level, lo, from);
    forall a: nat | lo <= a < lo + Coverage(level + 1)
      ensures GetEntry(lowest, store', n, level, a) ==
                if from <= a < to then NewEntry(lowest, change, a) else GetEntry(lowest, store, n, level, a)
    {
      SlotRange(lo, level, from, a);
      var j := Index(a, level);
      PathRange(p.path, level, lo, a);
      if j == i {
        assert GetEntry(lowest, store', n, level, a) == GetEntry(lowest, store', child, level - 1, a);
      } else {
        assert AddrPath(a, |p.path| + 1) == p.path + [j];
        assert (p.path + [j])[|p.path|] != (p.path + [i])[|p.path|];
        WalkOutside(lowest, store, place, store', place', p.root, p.path + [i], n, level, a);
      }
    }
  }

  /** The stretch of entry i meets the range. */
  predicate Touches(level: nat, lo: nat, i: nat, from: nat, to: nat)
    requires level <= TOP_LEVEL
  {
    from < to && from < lo + (i + 1) * Coverage(level) && lo + i * Coverage(level) < to
  }

  /** Mapping links what the range touches and was not linked yet, with the given type, and nothing else. */
  ghost predicate FilledAt(
    store: Store, store': Store, n: nat, level: nat, lo: nat, from: nat, to: nat, change: Change, persistent: bool,
    i: nat)
    requires level <= TOP_LEVEL && n in store && n in store' && i < |store[n]| && i < |store'[n]|
  {
    if store[n][i] != EMPTY || change == Unmap || !Touches(level, lo, i, from, to) then store'[n][i] == store[n][i]
    else store'[n][i].addr != 0 && store'[n][i].persistent == persistent
  }

  ghost predicate Filled(
    lowest: nat, store: Store, store': Store, n: nat, level: nat, lo: nat, from: nat, to: nat, change: Change,
    persistent: bool)
    requires level <= TOP_LEVEL
  {
    && n in store && n in store' && |store[n]| == |store'[n]| == ENTRY_COUNT
    && (lowest < level ==>
          forall i: nat {:trigger FilledAt(store, store', n, level, lo, from, to, change, persistent, i)} ::
            i < ENTRY_COUNT ==> FilledAt(store, store', n, level, lo, from, to, change, persistent, i))
  }

  /** Everything a change of the range [from, to) below node n amounts to. */
  ghost predicate Applied(
    lowest: nat, store: Store, place: map<nat, Place>, store': Store, place': map<nat, Place>,
    n: nat, level: nat, lo: nat, from: nat, to: nat, change: Change, persistent: bool)
    requires lowest <= level <= TOP_LEVEL && n in place
  {
    && ChangedBelow(store, place, store', place', place[n].root, place[n].path)
    && Updated(lowest, store, store', n, level, lo, from, to, change)
    && Filled(lowest, store, store', n, level, lo, from, to, change, persistent)
  }

  lemma FilledTrans(
    lowest: nat, store: Store, store1: Store, store2: Store, n: nat, level: nat, lo: nat,
    from: nat, mid: nat, to: nat, change: Change, persistent: bool)
    requires lowest <= level <= TOP_LEVEL && from <= mid <= to
    requires Filled(lowest, store, store1, n, level, lo, from, mid, change, persistent)
    requires Filled(lowest, store1, store2, n, level, lo, mid, to, change, persistent)
    ensures Filled(lowest, store, store2, n, level, lo, from, to, change, persistent)
  {
    if lowest < level {
      forall i: nat | i < ENTRY_COUNT
        ensures FilledAt(store, store2, n, level, lo, from, to, change, persistent, i)
      {
        assert FilledAt(store, store1, n, level, lo, from, mid, change, persistent, i);
        assert FilledAt(store1, store2, n, level, lo, mid, to, change, persistent, i);
      }
    }
  }

  lemma NothingApplied(
    lowest: nat, store: Store, place: map<nat, Place>, n: nat, level: nat, lo: nat, at: nat, change: Change,
    persistent: bool)
    requires lowest <= level <= TOP_LEVEL && WellFormed(lowest, store, place) && n in place
    ensures Applied(lowest, store, place, store, place, n, level, lo, at, at, change, persistent)
  {
    assert NodeOk(lowest, store, place, n);
    assert forall i: nat :: i < ENTRY_COUNT ==> FilledAt(store, store, n, level, lo, at, at, change, persistent, i);
  }

  lemma AppliedTrans(
    lowest: nat, store: Store, place: map<nat, Place>, store1: Store, place1: map<nat, Place>,
    store2: Store, place2: map<nat, Place>, n: nat, level: nat, lo: nat,
    from: nat, mid: nat, to: nat, change: Change, persistent: bool)
    requires lowest <= level <= TOP_LEVEL && from <= mid <= to && n in place && n in place1
    requires Applied(lowest, store, place, store1, place1, n, level, lo, from, mid, change, persistent)
    requires Applied(lowest, store1, place1, store2, place2, n, level, lo, mid, to, change, persistent)
    ensures Applied(lowest, store, place, store2, place2, n, level, lo, from, to, change, persistent)
  {
    ChangedBelowTrans(store, place, store1, place1, store2, place2, place[n].root, place[n].path, place[n].path);
    UpdatedTrans(lowest, store, store1, store2, n, level, lo, from, mid, to, change);
    FilledTrans(lowest, store, store1, store2, n, level, lo, from, mid, to, change, persistent);
  }

  /** A range inside the stretch of entry i touches that entry only. */
  lemma TouchesOnly(level: nat, lo: nat, i: nat, from: nat, to: nat, j: nat)
    requires level <= TOP_LEVEL && lo % Coverage(level + 1) == 0 && lo <= from < lo + Coverage(level + 1)
    requires i == Index(from, level) && from < to <= NextBase(from, level)
    ensures Touches(level, lo, j, from, to) <==> j == i
  {
    IndexRange(lo, level, from);
    if j < i {
      MulMonotone(j + 1, i, Coverage(level));
    } else if j > i {
      MulMonotone(i + 1, j, Coverage(level));
    }
  }

  /** Entry i of n links to child; a new link has the given type and the other entries are as before. */
  ghost predicate LinkedChild(store: Store, store': Store, n: nat, i: nat, child: nat, persistent: bool) {
    && n in store && n in store' && |store[n]| == |store'[n]| == ENTRY_COUNT && i < ENTRY_COUNT
    && child != 0 && store'[n][i].addr == child && store'[n] == store[n][i := store'[n][i]]
    && (if store[n][i] != EMPTY then store'[n][i] == store[n][i] else store'[n][i].persistent == persistent)
  }

  lemma FilledBelow(
    lowest: nat, store: Store, store1: Store, store2: Store, n: nat, level: nat, lo: nat, i: nat, child: nat,
    from: nat, to: nat, change: Change, persistent: bool)
    requires lowest < level <= TOP_LEVEL && lo % Coverage(level + 1) == 0 && lo <= from < lo + Coverage(level + 1)
    requires i == Index(from, level) && from < to <= NextBase(from, level)
    requires LinkedChild(store, store1, n, i, child, persistent) && (change == Unmap ==> store1[n] == store[n])
    requires n in store2 && store2[n] == store1[n]
    ensures Filled(lowest, store, store2, n, level, lo, from, to, change, persistent)
  {
    forall j: nat | j < ENTRY_COUNT
      ensures FilledAt(store, store2, n, level, lo, from, to, change, persistent, j)
    {
      TouchesOnly(level, lo, i, from, to, j);
    }
  }

  /** A change below the child of one entry, linked for it if need be, is a change below the node. */
  lemma AppliedBelow(
    lowest: nat, store: Store, place: map<nat, Place>, store1: Store, place1: map<nat, Place>,
    store2: Store, place2: map<nat, Place>, n: nat, level: nat, lo: nat, childLo: nat, i: nat, child: nat,
    from: nat, to: nat, change: Change, persistent: bool)
    requires WellFormed(lowest, store1, place1) && WellFormed(lowest, store2, place2)
    requires n in place && lowest < level && StartsAt(place[n].path, level, lo)
    requires lo <= from < lo + Coverage(level + 1) && i == Index(from, level) && from < to <= NextBase(from, level)
    requires ChangedBelow(store, place, store1, place1, place[n].root, place[n].path)
    requires Updated(lowest, store, store1, n, level, lo, 0, 0, Unmap)
    requires LinkedChild(store, store1, n, i, child, persistent) && (change == Unmap ==> store1[n] == store[n])
    requires child in place1 && place1[child] == Place(place[n].root, place[n].kernel, place[n].path + [i])
    requires childLo == lo + i * Coverage(level)
    requires Applied(lowest, store1, place1, store2, place2, child, level - 1, childLo, from, to, change, false)
    ensures Applied(lowest, store, place, store2, place2, n, level, lo, from, to, change, persistent)
  {
    var p := place[n];
    assert store2[n] == store1[n];
    FilledBelow(lowest, store, store1, store2, n, level, lo, i, child, from, to, change, persistent);
    UpdatedBelow(lowest, store1, place1, store2, place2, n, level, lo, childLo, i, child, from, to, change);
    UpdatedAfterSame(lowest, store, store1, store2, n, level, lo, from, to, change);
    ChangedBelowTrans(store, place, store1, place1, store2, place2, p.root, p.path, p.path + [i]);
  }

  /** Overwriting an entry of a lowest-level node keeps the trees. */
  lemma LeafWellFormed(lowest: nat, store: Store, place: map<nat, Place>, n: nat, i: nat, e: Entry)
    requires WellFormed(lowest, store, place) && n in place && |place[n].path| + lowest == TOP_LEVEL
    requires NodeOk(lowest, store, place, n) && i < ENTRY_COUNT
    ensures WellFormed(lowest, store[n := store[n][i := e]], place)
  {
    var store' := store[n := store[n][i := e]];
    forall m | m in place
      ensures NodeOk(lowest, store', place, m) && Attached(store', place, m)
    {
      assert NodeOk(lowest, store, place, m) && Attached(store, place, m);
      if |place[m].path| + lowest < TOP_LEVEL {
        forall j | 0 <= j < ENTRY_COUNT
          ensures SlotOk(store', place, m, j)
        {
          assert SlotOk(store, place, m, j);
        }
      }
      if place[m].path != [] {
        var p :| p in place && IsParent(store, place, p, m);
        assert IsParent(store', place, p, m);
      }
    }
  }

  lemma LeafPage(lowest: nat, addr: nat, change: Change)
    requires lowest <= 1 && addr % Coverage(lowest) == 0
    ensures forall a: nat :: addr <= a < NextBase(addr, lowest) ==>
              NewEntry(lowest, change, a) == NewEntry(lowest, change, addr)
    ensures PageBase(lowest, addr) == addr
  {
    var c, q := Coverage(lowest), addr / Coverage(lowest);
    forall a: nat | addr <= a < NextBase(addr, lowest)
      ensures PageBase(lowest, a) == addr
    {
      QuotientUnique(addr + c, c, q + 1, 0);
      QuotientUnique(a, c, q, a - addr);
    }
  }

  lemma LeafEnd(lowest: nat, addr: nat, to: nat)
    requires lowest <= 1 && addr % Coverage(lowest) == 0 && to % Coverage(lowest) == 0
    requires addr < to <= NextBase(addr, lowest)
    ensures to == NextBase(addr, lowest)
  {
    var c := Coverage(lowest);
    var q, p := addr / c, to / c;
    QuotientUnique(addr + c, c, q + 1, 0);
    assert to == p * c;
    if p <= q {
      MulMonotone(p, q, c);
      assert false;
    }
    MulMonotone(q + 1, p, c);
  }

  lemma EndPageAligned(lowest: nat, base: nat, size: nat)
    requires lowest <= 1 && base % Coverage(lowest) == 0 && size % Coverage(lowest) == 0
    ensures (base + size) % Coverage(lowest) == 0
  {
    var c := Coverage(lowest);
    assert base + size == (base / c + size / c) * c;
    QuotientUnique(base + size, c, base / c + size / c, 0);
  }

  lemma PageDifference(lowest: nat, addr: nat, to: nat)
    requires lowest <= 1 && addr % Coverage(lowest) == 0 && to % Coverage(lowest) == 0 && addr <= to
    ensures (to - addr) % Coverage(lowest) == 0
  {
    var c := Coverage(lowest);
    var q, p := addr / c, to / c;
    assert addr == q * c && to == p * c;
    QuotientMonotone(addr, to, c);
    assert to - addr == (p - q) * c;
    QuotientUnique(to - addr, c, p - q, 0);
  }

  lemma AlignedSlot(lowest: nat, lo: nat, addr: nat)
    requires lowest <= 1 && lo % Coverage(lowest + 1) == 0 && addr % Coverage(lowest) == 0
    requires lo <= addr < lo + Coverage(lowest + 1)
    ensures lo + Index(addr, lowest) * Coverage(lowest) == addr
  {
    IndexRange(lo, lowest, addr);
    CoverageStep(lowest);
    var c, i, m := Coverage(lowest), Index(addr, lowest), lo / Coverage(lowest + 1);
    assert lo == m * (ENTRY_COUNT * c);
    Arith.Expand(m, ENTRY_COUNT, i, c);
    QuotientUnique(addr, c, m * ENTRY_COUNT + i, addr - (lo + i * c));
  }

  // --- Hanging a new node below an empty entry -----------------------------

  ghost predicate CanLink(
    lowest: nat, store: Store, place: map<nat, Place>, n: nat, level: nat, i: nat, child: nat, persistent: bool)
  {
    && WellFormed(lowest, store, place)
    && n in place
    && lowest < level <= TOP_LEVEL
    && |place[n].path| == TOP_LEVEL - level
    && i < ENTRY_COUNT
    && NodeOk(lowest, store, place, n)
    && store[n][i] == EMPTY
    && child > 0
    && child !in store
    && (persistent ==> level == TOP_LEVEL)
  }

  function LinkedStore(store: Store, n: nat, i: nat, child: nat, link: Entry): Store
    requires n in store && i < |store[n]|
  {
    store[child := seq(ENTRY_COUNT, _ => EMPTY)][n := store[n][i := link]]
  }

  ghost function LinkedPlace(place: map<nat, Place>, n: nat, i: nat, child: nat): map<nat, Place>
    requires n in place
  {
    place[child := Place(place[n].root, place[n].kernel, place[n].path + [i])]
  }

  lemma LinkedWellFormed(
    lowest: nat, store: Store, place: map<nat, Place>, n: nat, level: nat, i: nat, child: nat, persistent: bool)
    requires CanLink(lowest, store, place, n, level, i, child, persistent)
    ensures var link := NextLevelEntry(place[n].kernel, child, persistent);
            WellFormed(lowest, LinkedStore(store, n, i, child, link), LinkedPlace(place, n, i, child))
  {
    var place' := LinkedPlace(place, n, i, child);
    var store' := LinkedStore(store, n, i, child, NextLevelEntry(place[n].kernel, child, persistent));
    forall m | m in place'
      ensures NodeOk(lowest, store', place', m) && Attached(store', place', m)
    {
      LinkedNodeOk(lowest, store, place, n, level, i, child, persistent, m);
      LinkedAttached(lowest, store, place, n, level, i, child, persistent, m);
    }
    forall p, q | SamePlace(place', p, q)
      ensures p == q
    {
      LinkedSeparate(lowest, store, place, n, level, i, child, persistent, p);
      LinkedSeparate(lowest, store, place, n, level, i, child, persistent, q);
      assert p in place && q in place ==> SamePlace(place, p, q);
    }
  }

  /** No node already sits where the new one goes. */
  lemma LinkedSeparate(
    lowest: nat, store: Store, place: map<nat, Place>, n: nat, level: nat, i: nat, child: nat, persistent: bool, m: nat)
    requires CanLink(lowest, store, place, n, level, i, child, persistent)
    requires m in LinkedPlace(place, n, i, child)
    ensures m in place ==> place[m] != LinkedPlace(place, n, i, child)[child]
  {
    if m in place && place[m] == LinkedPlace(place, n, i, child)[child] {
      assert Attached(store, place, m);
      var p :| p in place && IsParent(store, place, p, m);
      assert place[m].path[..|place[n].path|] == place[n].path;
      assert SamePlace(place, p, n);
      assert false;
    }
  }

  lemma LinkedNodeOk(
    lowest: nat, store: Store, place: map<nat, Place>, n: nat, level: nat, i: nat, child: nat, persistent: bool, m: nat)
    requires CanLink(lowest, store, place, n, level, i, child, persistent)
    requires m in LinkedPlace(place, n, i, child)
    ensures var link := NextLevelEntry(place[n].kernel, child, persistent);
            NodeOk(lowest, LinkedStore(store, n, i, child, link), LinkedPlace(place, n, i, child), m)
  {
    var place' := LinkedPlace(place, n, i, child);
    var store' := LinkedStore(store, n, i, child, NextLevelEntry(place[n].kernel, child, persistent));
    if m in place {
      assert NodeOk(lowest, store, place, m);
      if |place[m].path| + lowest < TOP_LEVEL {
        forall j | 0 <= j < ENTRY_COUNT
          ensures SlotOk(store', place', m, j)
        {
          assert SlotOk(store, place, m, j);
        }
      }
    }
  }

  lemma LinkedAttached(
    lowest: nat, store: Store, place: map<nat, Place>, n: nat, level: nat, i: nat, child: nat, persistent: bool, m: nat)
    requires CanLink(lowest, store, place, n, level, i, child, persistent)
    requires m in LinkedPlace(place, n, i, child)
    ensures var link := NextLevelEntry(place[n].kernel, child, persistent);
            Attached(LinkedStore(store, n, i, child, link), LinkedPlace(place, n, i, child), m)
  {
    var place' := LinkedPlace(place, n, i, child);
    var store' := LinkedStore(store, n, i, child, NextLevelEntry(place[n].kernel, child, persistent));
    if m == child {
      assert place'[m].path[..|place[n].path|] == place[n].path;
      assert IsParent(store', place', n, m);
    } else {
      assert Attached(store, place, m);
      if place[m].path != [] {
        var p :| p in place && IsParent(store, place, p, m);
        assert NodeOk(lowest, store, place, m);
        assert IsParent(store', place', p, m);
      }
    }
  }

  lemma LinkedLookup(
    lowest: nat, store: Store, place: map<nat, Place>, n: nat, level: nat, i: nat, child: nat, persistent: bool, a: nat)
    requires CanLink(lowest, store, place, n, level, i, child, persistent)
    requires place[n].path == AddrPath(a, TOP_LEVEL - level)
    ensures var link := NextLevelEntry(place[n].kernel, child, persistent);
            GetEntry(lowest, LinkedStore(store, n, i, child, link), n, level, a) == GetEntry(lowest, store, n, level, a)
  {
    var link := NextLevelEntry(place[n].kernel, child, persistent);
    var store' := LinkedStore(store, n, i, child, link);
    assert SlotOk(store, place, n, 0);
    var j := Index(a, level);
    assert SlotOk(store, place, n, j);
    if j == i {
      assert GetEntry(lowest, store, n, level, a) == EMPTY;
      assert GetEntry(lowest, store', child, level - 1, a) == EMPTY;
    } else if store[n][j] != EMPTY {
      WalkFrame(lowest, store, store', place, store[n][j].addr, level - 1, a);
    }
  }

  // --- Whole tables --------------------------------------------------------

  ghost predicate IsRoot(place: map<nat, Place>, r: nat) {
    r in place && place[r].path == []
  }

  function Lookup(lowest: nat, store: Store, root: nat, a: nat): Entry
    requires lowest <= TOP_LEVEL
  {
    GetEntry(lowest, store, root, TOP_LEVEL, a)
  }

  /** One range of one table reads as the change says; every other page of every table is as before. */
  ghost predicate Remapped(
    lowest: nat, store: Store, place: map<nat, Place>, store': Store, place': map<nat, Place>,
    root: nat, base: nat, size: nat, change: Change)
    requires lowest <= TOP_LEVEL
  {
    && (forall r :: IsRoot(place', r) <==> IsRoot(place, r))
    && (forall r :: IsRoot(place, r) ==> place'[r] == place[r])
    && (forall r: nat, a: nat {:trigger Lookup(lowest, store', r, a)} :: IsRoot(place, r) && a < ADDRESS_LIMIT ==>
          Lookup(lowest, store', r, a) ==
            if r == root && base <= a < base + size then NewEntry(lowest, change, a) else Lookup(lowest, store, r, a))
  }

  /** The links of one root are filled in as the range needs; the other roots are as before. */
  ghost predicate RootLinks(
    lowest: nat, store: Store, place: map<nat, Place>, store': Store,
    root: nat, base: nat, size: nat, change: Change, persistent: bool)
  {
    && Filled(lowest, store, store', root, TOP_LEVEL, 0, base, base + size, change, persistent)
    && forall r :: IsRoot(place, r) && r != root ==> r in store && r in store' && store'[r] == store[r]
  }

  lemma AppliedToRoot(
    lowest: nat, store: Store, place: map<nat, Place>, store': Store, place': map<nat, Place>,
    root: nat, base: nat, size: nat, change: Change, persistent: bool)
    requires lowest <= 1 && WellFormed(lowest, store, place) && WellFormed(lowest, store', place')
    requires IsRoot(place, root)
    requires Applied(lowest, store, place, store', place', root, TOP_LEVEL, 0, base, base + size, change, persistent)
    ensures Remapped(lowest, store, place, store', place', root, base, size, change)
    ensures RootLinks(lowest, store, place, store', root, base, size, change, persistent)
  {
    assert Attached(store, place, root);
    forall r | IsRoot(place, r) && r != root
      ensures r in store && r in store' && store'[r] == store[r]
    {
      assert Attached(store, place, r);
    }
    forall r | IsRoot(place', r)
      ensures IsRoot(place, r)
    {
      assert Attached(store', place', r);
    }
    forall r: nat, a: nat | IsRoot(place, r) && a < ADDRESS_LIMIT
      ensures Lookup(lowest, store', r, a) ==
                if r == root && base <= a < base + size
                then NewEntry(lowest, change, a) else Lookup(lowest, store, r, a)
    {
      if r != root {
        assert Attached(store, place, r);
        WalkOutside(lowest, store, place, store', place', root, [], r, TOP_LEVEL, a);
      }
    }
  }

  lemma RootWellFormed(lowest: nat, store: Store, place: map<nat, Place>, root: nat, kernel: bool)
    requires lowest <= 1 && WellFormed(lowest, store, place) && root > 0 && root !in store
    ensures WellFormed(lowest, store[root := seq(ENTRY_COUNT, _ => EMPTY)], place[root := Place(root, kernel, [])])
  {
    var store' := store[root := seq(ENTRY_COUNT, _ => EMPTY)];
    var place' := place[root := Place(root, kernel, [])];
    forall m | m in place'
      ensures NodeOk(lowest, store', place', m) && Attached(store', place', m)
    {
      if m != root {
        assert NodeOk(lowest, store, place, m) && Attached(store, place, m);
        if |place[m].path| + lowest < TOP_LEVEL {
          forall j | 0 <= j < ENTRY_COUNT
            ensures SlotOk(store', place', m, j)
          {
            assert SlotOk(store, place, m, j);
          }
        }
        if place[m].path != [] {
          var p :| p in place && IsParent(store, place, p, m);
          assert IsParent(store', place', p, m);
        }
      }
    }
    forall m, n | SamePlace(place', m, n)
      ensures m == n
    {
      assert m in place ==> Attached(store, place, m);
      assert n in place ==> Attached(store, place, n);
      assert m in place && n in place ==> SamePlace(place, m, n);
    }
  }

  /** Forgetting one table keeps the others well-formed. */
  lemma DroppedWellFormed(lowest: nat, store: Store, place: map<nat, Place>, store': Store, root: nat)
    requires WellFormed(lowest, store, place) && IsRoot(place, root) && 0 !in store'
    requires forall m :: m in place && place[m].root != root ==> m in store' && store'[m] == store[m]
    ensures WellFormed(lowest, store', map m | m in place && place[m].root != root :: place[m])
  {
    var place' := map m | m in place && place[m].root != root :: place[m];
    forall m | m in place'
      ensures NodeOk(lowest, store', place', m) && Attached(store', place', m)
    {
      assert NodeOk(lowest, store, place, m) && Attached(store, place, m);
      if |place[m].path| + lowest < TOP_LEVEL {
        forall j | 0 <= j < ENTRY_COUNT
          ensures SlotOk(store', place', m, j)
        {
          assert SlotOk(store, place, m, j);
        }
      }
      if place[m].path != [] {
        var p :| p in place && IsParent(store, place, p, m);
        assert IsParent(store', place', p, m);
      }
    }
    forall m, n | SamePlace(place', m, n)
      ensures m == n
    {
      assert SamePlace(place, m, n);
    }
  }

  // --- What deallocation frees -----------------------------------------------

  ghost predicate AgreesBelow(store: Store, whole: Store, place: map<nat, Place>, root: nat, path: seq<nat>) {
    forall m :: m in place && place[m].root == root && path <= place[m].path ==>
                  m in store && m in whole && store[m] == whole[m]
  }

  ghost function Without(store: Store, nodes: seq<nat>): Store {
    store - (set x | x in nodes)
  }

  lemma WithoutConcat(store: Store, s: seq<nat>, t: seq<nat>)
    ensures Without(Without(store, s), t) == Without(store, s + t)
  {
  }

  /** While the first k children are gone, the node and its k-th child's nodes are still in place. */
  lemma StillAgrees(
    lowest: nat, store: Store, whole: Store, place: map<nat, Place>, n: nat, level: nat, k: nat)
    requires WellFormed(lowest, whole, place) && n in place && n in whole && |whole[n]| == ENTRY_COUNT
    requires lowest < level <= TOP_LEVEL && |place[n].path| == TOP_LEVEL - level && k < ENTRY_COUNT
    requires AgreesBelow(store, whole, place, place[n].root, place[n].path)
    ensures var rest := Without(store, FreeBelow(lowest, whole, n, level, k));
            var e := whole[n][k];
            && n in rest
            && rest[n] == whole[n]
            && (e.addr != 0 ==>
                  && e.addr in place
                  && |place[e.addr].path| == TOP_LEVEL - level + 1
                  && AgreesBelow(rest, whole, place, place[e.addr].root, place[e.addr].path))
  {
    FreeBelowPlaces(lowest, whole, place, n, level, k);
    assert NodeOk(lowest, whole, place, n) && SlotOk(whole, place, n, k);
  }

  ghost function FreeList(lowest: nat, store: Store, n: nat, level: nat): seq<nat>
    requires lowest <= level
    decreases level, 1, 0
  {
    if n !in store || |store[n]| != ENTRY_COUNT then []
    else if level == lowest then [n]
    else FreeBelow(lowest, store, n, level, ENTRY_COUNT) + [n]
  }

  ghost function FreeBelow(lowest: nat, store: Store, n: nat, level: nat, k: nat): seq<nat>
    requires lowest < level && n in store && |store[n]| == ENTRY_COUNT && k <= ENTRY_COUNT
    decreases level, 0, k
  {
    if k == 0 then [] else FreeBelow(lowest, store, n, level, k - 1) + FreeEntry(lowest, store, n, level, k - 1)
  }

  ghost function FreeEntry(lowest: nat, store: Store, n: nat, level: nat, i: nat): seq<nat>
    requires lowest < level && n in store && |store[n]| == ENTRY_COUNT && i < ENTRY_COUNT
    decreases level, 0, i
  {
    var e := store[n][i];
    if e.persistent || e.addr == 0 then [] else FreeList(lowest, store, e.addr, level - 1)
  }

  lemma FreeNext(lowest: nat, whole: Store, n: nat, level: nat, k: nat, store: Store, freed: seq<nat>)
    requires lowest < level && n in whole && |whole[n]| == ENTRY_COUNT && k < ENTRY_COUNT
    ensures var done, more := FreeBelow(lowest, whole, n, level, k), FreeEntry(lowest, whole, n, level, k);
            && FreeBelow(lowest, whole, n, level, k + 1) == done + more
            && Without(Without(store, done), more) == Without(store, done + more)
            && freed + done + more == freed + (done + more)
  {
    WithoutConcat(store, FreeBelow(lowest, whole, n, level, k), FreeEntry(lowest, whole, n, level, k));
  }

  /** Freed nodes are nodes of the same table at or below the given one. */
  lemma {:induction false} FreeListPlaces(lowest: nat, store: Store, place: map<nat, Place>, n: nat, level: nat)
    requires WellFormed(lowest, store, place) && n in place
    requires lowest <= level <= TOP_LEVEL && |place[n].path| == TOP_LEVEL - level
    ensures forall m :: m in FreeList(lowest, store, n, level) ==>
              m in place && place[m].root == place[n].root && place[n].path <= place[m].path
    decreases level, 1, 0
  {
    assert NodeOk(lowest, store, place, n);
    if level > lowest {
      FreeBelowPlaces(lowest, store, place, n, level, ENTRY_COUNT);
    }
  }

  lemma {:induction false} FreeBelowPlaces(
    lowest: nat, store: Store, place: map<nat, Place>, n: nat, level: nat, k: nat)
    requires WellFormed(lowest, store, place) && n in place && n in store && |store[n]| == ENTRY_COUNT
    requires lowest < level <= TOP_LEVEL && |place[n].path| == TOP_LEVEL - level && k <= ENTRY_COUNT
    ensures forall m :: m in FreeBelow(lowest, store, n, level, k) ==>
              && m in place && place[m].root == place[n].root
              && place[n].path < place[m].path && place[m].path[|place[n].path|] < k
    decreases level, 0, k
  {
    if k > 0 {
      FreeBelowPlaces(lowest, store, place, n, level, k - 1);
      assert NodeOk(lowest, store, place, n) && SlotOk(store, place, n, k - 1);
      var e := store[n][k - 1];
      if !e.persistent && e.addr != 0 {
        FreeListPlaces(lowest, store, place, e.addr, level - 1);
      }
    }
  }

  lemma UnlinkedReadsEmpty(
    lowest: nat, store: Store, place: map<nat, Place>, n: nat, level: nat, lo: nat, from: nat, to: nat)
    requires WellFormed(lowest, store, place) && n in place
    requires lowest < level && StartsAt(place[n].path, level, lo)
    requires lo <= from < lo + Coverage(level + 1) && to <= NextBase(from, level)
    requires |store[n]| == ENTRY_COUNT && store[n][Index(from, level)].addr == 0
    ensures Applied(lowest, store, place, store, place, n, level, lo, from, to, Unmap, false)
  {
    assert NodeOk(lowest, store, place, n) && SlotOk(store, place, n, 0);
    forall i: nat | i < ENTRY_COUNT
      ensures FilledAt(store, store, n, level, lo, from, to, Unmap, false, i)
    {
    }
    IndexRange(lo, level, from);
    forall a: nat | lo <= a < lo + Coverage(level + 1)
      ensures GetEntry(lowest, store, n, level, a) ==
                if from <= a < to then EMPTY else GetEntry(lowest, store, n, level, a)
    {
      SlotRange(lo, level, from, a);
    }
  }
}
