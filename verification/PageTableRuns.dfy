/** Carrying out sequences of page-table operations, and what they leave behind. */
module PageTableRuns {
  import opened Common
  import opened Paging
  import opened PageTable
  import opened Laws = PageTableLaws

  /** What the callers of the operations arrange: ranges below 2^48, and predefined ranges of whole pages. */
  ghost predicate EventOk(lowest: nat, place: map<nat, Place>, e: Event)
    requires lowest <= 1
  {
    && IsRoot(place, e.root) && place[e.root].kernel == e.kernel
    && e.op.base + e.op.size <= ADDRESS_LIMIT
    && (e.op.PredefineOp? ==>
          !e.kernel && e.op.base % Coverage(lowest) == 0 && e.op.size % Coverage(lowest) == 0)
  }

  ghost predicate EventsOk(lowest: nat, place: map<nat, Place>, events: seq<Event>)
    requires lowest <= 1
  {
    forall i :: 0 <= i < |events| ==> EventOk(lowest, place, events[i])
  }

  /** The operation aborts: an unaligned range, or removal from the kernel's table. */
  predicate Refused(lowest: nat, kernelRoot: nat, e: Event)
    requires lowest <= 1
  {
    || (!e.op.PredefineOp? && (e.op.base % Coverage(lowest) != 0 || e.op.size % Coverage(lowest) != 0))
    || (e.op.UnmapOp? && e.root == kernelRoot)
  }

  method PerformOne(memory: TableMemory, e: Event) returns (outcome: Outcome)
    requires memory.Valid() && EventOk(memory.lowest, memory.place, e)
    modifies memory`store, memory`place
    ensures memory.Valid()
    ensures outcome == Abort <==> Refused(memory.lowest, memory.kernelRoot, e)
    ensures outcome == Abort ==> memory.store == old(memory.store) && memory.place == old(memory.place)
    ensures outcome == Done ==>
              Step(memory.lowest, TableState(old(memory.store), old(memory.place)),
                   TableState(memory.store, memory.place), e)
  {
    match e.op
    case MapOp(base, size, perm) => outcome := memory.MapPages(e.root, e.kernel, base, size, perm);
    case PredefineOp(base, size, perm) =>
      memory.MapPredefined(e.root, base, size, perm);
      outcome := Done;
    case UnmapOp(base, size) => outcome := memory.UnmapPages(e.root, base, size);
  }

  /**
  Performs operations on any tables until one aborts.  Afterwards every lookup of every table is
  that of the flat map; states records the run.
  */
  method Perform(memory: TableMemory, events: seq<Event>)
    returns (outcome: Outcome, n: nat, ghost states: seq<TableState>)
    requires memory.Valid() && EventsOk(memory.lowest, memory.place, events)
    modifies memory`store, memory`place
    ensures memory.Valid() && n <= |events| && (outcome == Done <==> n == |events|)
    ensures n < |events| ==> Refused(memory.lowest, memory.kernelRoot, events[n])
    ensures forall i :: 0 <= i < n ==> !Refused(memory.lowest, memory.kernelRoot, events[i])
    ensures IsRun(memory.lowest, states, events[..n])
    ensures states[0] == TableState(old(memory.store), old(memory.place))
    ensures states[n] == TableState(memory.store, memory.place)
    ensures forall root: nat, a: nat {:trigger Lookup(memory.lowest, memory.store, root, a)} ::
              IsRoot(old(memory.place), root) && a < ADDRESS_LIMIT ==>
                Lookup(memory.lowest, memory.store, root, a) ==
                  Flat(memory.lowest, root, Lookup(memory.lowest, old(memory.store), root, a), events[..n], a)
  {
    n, outcome, states := 0, Done, [TableState(memory.store, memory.place)];
    while n < |events| && outcome == Done
      invariant memory.Valid() && n <= |events| && EventsOk(memory.lowest, memory.place, events)
      invariant outcome == Abort ==> n < |events| && Refused(memory.lowest, memory.kernelRoot, events[n])
      invariant forall i :: 0 <= i < n ==> !Refused(memory.lowest, memory.kernelRoot, events[i])
      invariant IsRun(memory.lowest, states, events[..n])
      invariant states[0] == TableState(old(memory.store), old(memory.place))
      invariant states[n] == TableState(memory.store, memory.place)
      decreases |events| - n, outcome == Done
    {
      outcome := PerformOne(memory, events[n]);
      if outcome == Done {
        ghost var s := TableState(memory.store, memory.place);
        RunExtends(memory.lowest, states, events[..n], s, events[n]);
        assert events[..n + 1] == events[..n] + [events[n]];
        states, n := states + [s], n + 1;
      }
    }
    forall root: nat, a: nat | IsRoot(old(memory.place), root) && a < ADDRESS_LIMIT
      ensures Lookup(memory.lowest, memory.store, root, a)
           == Flat(memory.lowest, root, Lookup(memory.lowest, old(memory.store), root, a), events[..n], a)
    {
      RunIsFlat(memory.lowest, states, events[..n], root, a);
    }
  }

  lemma RunExtends(lowest: nat, states: seq<TableState>, events: seq<Event>, s: TableState, e: Event)
    requires lowest <= TOP_LEVEL && IsRun(lowest, states, events) && Step(lowest, states[|events|], s, e)
    ensures IsRun(lowest, states + [s], events + [e])
  {
    var states', events' := states + [s], events + [e];
    forall i | 0 <= i < |events'| ensures Step(lowest, states'[i], states'[i + 1], events'[i]) {
      if i < |events| { assert Step(lowest, states[i], states[i + 1], events[i]); }
    }
  }

  /** New tables, all of whose pages read as empty. */
  method CreateTables(memory: TableMemory, kinds: seq<bool>) returns (roots: seq<nat>)
    requires memory.Valid()
    modifies memory`store, memory`place
    ensures memory.Valid() && |roots| == |kinds|
    ensures forall t: nat :: t < |roots| ==> NewTable(memory.lowest, memory.store, memory.place, roots[t], kinds[t])
  {
    roots := [];
    for t := 0 to |kinds|
      invariant memory.Valid() && |roots| == t
      invariant forall u: nat :: u < t ==> NewTable(memory.lowest, memory.store, memory.place, roots[u], kinds[u])
    {
      ghost var store, place := memory.store, memory.place;
      var root := memory.CreateTable(kinds[t]);
      forall u: nat | u < t ensures NewTable(memory.lowest, memory.store, memory.place, roots[u], kinds[u]) {
        assert NewTable(memory.lowest, store, place, roots[u], kinds[u]);
      }
      assert NewTable(memory.lowest, memory.store, memory.place, root, kinds[t]);
      roots := roots + [root];
    }
  }

  ghost predicate NewTable(lowest: nat, store: Store, place: map<nat, Place>, root: nat, kernel: bool)
    requires lowest <= 1
  {
    && IsRoot(place, root) && place[root].kernel == kernel
    && root in store && store[root] == seq(ENTRY_COUNT, _ => EMPTY)
    && forall a: nat {:trigger Lookup(lowest, store, root, a)} :: a < ADDRESS_LIMIT ==>
      Lookup(lowest, store, root, a) == EMPTY
  }

  ghost predicate LinksAre(store: Store, root: nat, events: seq<Event>) {
    && root in store && |store[root]| == ENTRY_COUNT
    && forall i: nat :: i < ENTRY_COUNT ==> LinkIs(store[root][i], LinkType(root, events, i))
  }

  /** An operation on the t-th of several tables. */
  datatype Request = Request(table: nat, op: Op)

  function EventsOf(roots: seq<nat>, kinds: seq<bool>, requests: seq<Request>): seq<Event>
    requires |roots| == |kinds| && forall r :: r in requests ==> r.table < |roots|
  {
    seq(|requests|, i requires 0 <= i < |requests| =>
      Event(roots[requests[i].table], kinds[requests[i].table], requests[i].op))
  }

  predicate RequestOk(lowest: nat, kinds: seq<bool>, r: Request)
    requires lowest <= 1
  {
    && r.table < |kinds| && r.op.base + r.op.size <= ADDRESS_LIMIT
    && (r.op.PredefineOp? ==>
          !kinds[r.table] && r.op.base % Coverage(lowest) == 0 && r.op.size % Coverage(lowest) == 0)
  }

  /** From an empty table, the processor sees what the last operation covering an address grants. */
  lemma AccessIsFlat(lowest: nat, states: seq<TableState>, events: seq<Event>, root: nat, kernel: bool, a: nat)
    requires lowest <= 1 && IsRun(lowest, states, events) && a < ADDRESS_LIMIT
    requires WellFormed(lowest, states[|events|].store, states[|events|].place)
    requires NewTable(lowest, states[0].store, states[0].place, root, kernel)
    requires forall i :: 0 <= i < |events| && events[i].root == root ==> events[i].kernel == kernel
    ensures Effective(states[|events|].store, root, TOP_LEVEL, a) == FlatAccess(root, kernel, events, a)
  {
    RunIsFlat(lowest, states, events, root, a);
    assert Lookup(lowest, states[0].store, root, a) == EMPTY;
    FlatGrants(lowest, root, kernel, events, a);
    EffectiveIsLeaf(lowest, states[|events|].store, states[|events|].place, root, TOP_LEVEL, a);
  }

  /**
  Tables are created and then operated on, in any order.  Every lookup is the flat map's answer
  from empty tables; what the processor lets through leads to the address itself, with the rights of
  the last operation that covers it; and an entry of a root is persistent iff it was first linked for
  a predefined range.
  */
  method Execute(memory: TableMemory, kinds: seq<bool>, requests: seq<Request>)
    returns (outcome: Outcome, n: nat, roots: seq<nat>)
    requires memory.Valid() && forall r :: r in requests ==> r.table < |kinds| && RequestOk(memory.lowest, kinds, r)
    modifies memory`store, memory`place
    ensures memory.Valid() && n <= |requests| && |roots| == |kinds| && (outcome == Done <==> n == |requests|)
    ensures n < |requests| ==> Refused(memory.lowest, memory.kernelRoot, EventsOf(roots, kinds, requests)[n])
    ensures forall i :: 0 <= i < n ==> !Refused(memory.lowest, memory.kernelRoot, EventsOf(roots, kinds, requests)[i])
    ensures forall t: nat, a: nat :: t < |roots| && a < ADDRESS_LIMIT ==>
              Lookup(memory.lowest, memory.store, roots[t], a) ==
                Flat(memory.lowest, roots[t], EMPTY, EventsOf(roots, kinds, requests)[..n], a)
    ensures forall t: nat, a: nat :: t < |roots| && a < ADDRESS_LIMIT ==>
              Effective(memory.store, roots[t], TOP_LEVEL, a) ==
                FlatAccess(roots[t], kinds[t], EventsOf(roots, kinds, requests)[..n], a)
    ensures forall t: nat :: t < |roots| ==>
              LinksAre(memory.store, roots[t], EventsOf(roots, kinds, requests)[..n])
  {
    roots := CreateTables(memory, kinds);
    var events := EventsOf(roots, kinds, requests);
    ghost var store, place := memory.store, memory.place;
    forall i | 0 <= i < |events| ensures EventOk(memory.lowest, memory.place, events[i]) {
      assert requests[i] in requests;
      assert NewTable(memory.lowest, memory.store, memory.place, roots[requests[i].table], kinds[requests[i].table]);
    }
    ghost var states;
    outcome, n, states := Perform(memory, events);
    forall t: nat, a: nat | t < |roots| && a < ADDRESS_LIMIT
      ensures Lookup(memory.lowest, memory.store, roots[t], a)
           == Flat(memory.lowest, roots[t], EMPTY, events[..n], a)
    {
      assert NewTable(memory.lowest, store, place, roots[t], kinds[t]);
      assert Lookup(memory.lowest, store, roots[t], a) == EMPTY;
    }
    forall t: nat, a: nat | t < |roots| && a < ADDRESS_LIMIT
      ensures Effective(memory.store, roots[t], TOP_LEVEL, a) == FlatAccess(roots[t], kinds[t], events[..n], a)
    {
      assert NewTable(memory.lowest, store, place, roots[t], kinds[t]);
      AccessIsFlat(memory.lowest, states, events[..n], roots[t], kinds[t], a);
    }
    forall t: nat | t < |roots| ensures LinksAre(memory.store, roots[t], events[..n]) {
      assert NewTable(memory.lowest, store, place, roots[t], kinds[t]);
      RunLinks(memory.lowest, states, events[..n], roots[t], 0);
      forall i: nat | i < ENTRY_COUNT ensures LinkIs(memory.store[roots[t]][i], LinkType(roots[t], events[..n], i)) {
        RunLinks(memory.lowest, states, events[..n], roots[t], i);
      }
    }
  }

  /** Mapping a range that reads as empty and unmapping it again leaves every lookup of every table as it was. */
  method MapAndUnmap(memory: TableMemory, root: nat, kernel: bool, base: nat, size: nat, perm: Permission)
    returns (outcome: Outcome)
    requires memory.Valid() && IsRoot(memory.place, root) && memory.place[root].kernel == kernel
    requires base + size <= ADDRESS_LIMIT && root != memory.kernelRoot
    requires forall a: nat :: base <= a < base + size ==> Lookup(memory.lowest, memory.store, root, a) == EMPTY
    modifies memory`store, memory`place
    ensures memory.Valid()
    ensures outcome == Done <==> base % Coverage(memory.lowest) == 0 && size % Coverage(memory.lowest) == 0
    ensures forall r: nat, a: nat {:trigger Lookup(memory.lowest, memory.store, r, a)} ::
              IsRoot(old(memory.place), r) && a < ADDRESS_LIMIT ==>
                Lookup(memory.lowest, memory.store, r, a) == Lookup(memory.lowest, old(memory.store), r, a)
  {
    ghost var s0 := TableState(memory.store, memory.place);
    outcome := PerformOne(memory, Event(root, kernel, MapOp(base, size, perm)));
    if outcome == Done {
      ghost var s1 := TableState(memory.store, memory.place);
      outcome := PerformOne(memory, Event(root, kernel, UnmapOp(base, size)));
      MapThenUnmap(memory.lowest, s0, s1, TableState(memory.store, memory.place), root, kernel, base, size, perm);
    }
  }

  /**
  Destroying a table leaves allocated exactly its nodes below the root entries that were first
  linked for a predefined range.
  */
  method DestroyAfter(memory: TableMemory, root: nat, ghost states: seq<TableState>, ghost events: seq<Event>)
    requires memory.Valid() && IsRoot(memory.place, root)
    requires IsRun(memory.lowest, states, events) && states[|events|] == TableState(memory.store, memory.place)
    requires NewTable(memory.lowest, states[0].store, states[0].place, root, memory.place[root].kernel)
    modifies memory
    ensures memory.Valid()
    ensures forall m: nat {:trigger m in memory.store} :: InTable(old(memory.place), root, m) ==>
              (m in memory.store <==>
                 old(memory.place)[m].path != [] && LinkType(root, events, old(memory.place)[m].path[0]) == Some(true))
  {
    ghost var store, place := memory.store, memory.place;
    memory.Destroy(root);
    forall m: nat | InTable(place, root, m)
      ensures m in memory.store <==> place[m].path != [] && LinkType(root, events, place[m].path[0]) == Some(true)
    {
      KeptBelowPersistent(memory.lowest, store, place, root, m);
      if place[m].path != [] {
        RunLinks(memory.lowest, states, events, root, place[m].path[0]);
      }
      assert NodeOk(memory.lowest, store, place, m);
    }
  }

  ghost predicate InTable(place: map<nat, Place>, root: nat, m: nat) {
    m in place && place[m].root == root
  }
}
