/**
Why compartments cannot reach the kernel stack: what their page tables let ring 0 write, as the
transitions between kernel and compartments need it.
*/
module StackProtection {
  import opened Common
  import Arith
  import opened Words
  import opened Paging
  import Laws = PageTableLaws
  import opened OwnerRing
  import opened OwnershipViews
  import opened OwnershipSteps
  import opened Ownership
  import Transitions

  /** The permission of the last predefined range that covers an address. */
  ghost function PermissionAt(predefined: seq<Range>, a: nat): Option<Permission> {
    if predefined == [] then None else
      var r := predefined[|predefined| - 1];
      if r.base <= a < r.base + r.size then Some(r.perm) else PermissionAt(predefined[..|predefined| - 1], a)
  }

  /**
  Of the permissions for predefined ranges only the forced one lets ring 0 write; the kernel's writable
  data is not writable under a compartment's table.
  */
  lemma {:induction false} ForcedIff(lowest: nat, predefined: seq<Range>, a: nat)
    requires lowest <= 1 && forall i :: 0 <= i < |predefined| ==> PredefinedOk(lowest, predefined[i])
    ensures PredefinedForced(lowest, predefined, a / Coverage(lowest)) <==>
            PermissionAt(predefined, a) == Some(ForceKernelWrite)
  {
    PredefinedAccess(lowest, predefined, a);
    EntryIs(lowest, predefined, a);
  }

  lemma {:induction false} EntryIs(lowest: nat, predefined: seq<Range>, a: nat)
    requires lowest <= 1
    ensures PredefinedEntry(lowest, predefined, a) ==
            match PermissionAt(predefined, a)
            case None => EMPTY
            case Some(perm) => NewEntry(lowest, Map(false, perm), a)
  {
    if predefined != [] { EntryIs(lowest, predefined[..|predefined| - 1], a); }
  }

  ghost predicate WritesWord(backend: Backend, c: nat, w: nat)
    requires backend.Valid() && c in backend.roots
    reads backend, backend.tables, backend.lists
  {
    RingZeroCanWrite(backend, c, 8 * w)
  }

  /** For each compartment, the words that ring 0 can write under its page table. */
  ghost function WritableWords(backend: Backend): map<int, set<int>>
    requires backend.Valid()
    reads backend, backend.tables, backend.lists
  {
    map c | c in backend.roots :: set w: nat | w < 0x2000_0000_0000 && WritesWord(backend, c, w)
  }

  /** A word that some compartment owns or that its predefined ranges force. */
  ghost predicate Exposed(backend: Backend, c: nat, w: nat)
    requires backend.Valid()
    reads backend, backend.tables, backend.lists
  {
    && c in backend.roots && c in backend.borrowed
    && (|| OwnerOf(backend.owner, 8 * w / UnitSize(backend.tables.lowest)) == c
        || 8 * w / Coverage(backend.tables.lowest) in backend.borrowed[c].forced)
  }

  /** The kernel stack is out of reach exactly when no compartment owns a word of it or is forced one. */
  lemma KernelStackProtectedIff(backend: Backend, start: Transitions.Origin)
    requires backend.Valid() && 0 <= start.low && 8 * start.rsp <= ADDRESS_LIMIT
    ensures Transitions.Protects(WritableWords(backend), start) <==>
            forall c: nat, w: nat :: start.low <= w < start.rsp ==> !Exposed(backend, c, w)
  {
    var words := WritableWords(backend);
    forall c: nat, w: nat | c in backend.roots && start.low <= w < start.rsp
      ensures w in words[c] <==> Exposed(backend, c, w)
    {
      AccessIs(backend, c, 8 * w);
      assert w in words[c] <==> WritesWord(backend, c, w);
    }
    if Transitions.Protects(words, start) {
      forall c: nat, w: nat | start.low <= w < start.rsp ensures !Exposed(backend, c, w) {
        if c in backend.roots { assert w !in words[c]; }
      }
    } else {
      var self, address :| self in words && start.low <= address < start.rsp && address in words[self];
      assert Exposed(backend, self, address);
    }
  }

  // --- Over whole runs -------------------------------------------------------------

  ghost predicate WritesLeaf(lowest: nat, v: View, c: nat, w: nat)
    requires lowest <= 1 && c in v.roots
  {
    RingZeroWritable(Lookup(lowest, v.store, v.roots[c], 8 * w))
  }

  /** WritableWords of a view. */
  ghost function WordsOf(lowest: nat, v: View): map<int, set<int>>
    requires lowest <= 1
  {
    map c | c in v.roots :: set w: nat | w < 0x2000_0000_0000 && WritesLeaf(lowest, v, c, w)
  }

  lemma WordsAre(backend: Backend)
    requires backend.Valid()
    ensures WritableWords(backend) == WordsOf(backend.tables.lowest, backend.V())
  {
    var lowest, v := backend.tables.lowest, backend.V();
    forall c, w: nat | c in backend.roots && w < 0x2000_0000_0000
      ensures WritesWord(backend, c, w) <==> WritesLeaf(lowest, v, c, w)
    {
      assert RootOk(backend.tables.kernelRoot, v, c) && CompartmentOk(lowest, v, c);
      assert AccessAt(lowest, v.store, v.roots[c], v.owner, v.borrowed[c], c, 8 * w);
      Laws.EffectiveIsLeaf(lowest, v.store, v.place, v.roots[c], TOP_LEVEL, 8 * w);
    }
    forall c | c in backend.roots ensures WritableWords(backend)[c] == WordsOf(lowest, v)[c] {
      assert forall w: nat :: w < 0x2000_0000_0000 ==> (WritesWord(backend, c, w) <==> WritesLeaf(lowest, v, c, w));
    }
  }

  /** The unit of a word is held by the kernel and no compartment is forced its page. */
  ghost predicate KernelWord(lowest: nat, v: View, held: map<nat, nat>, w: nat)
    requires lowest <= 1
  {
    && 8 * w / UnitSize(lowest) in held && held[8 * w / UnitSize(lowest)] == NO_OWNER
    && forall c {:trigger c in v.borrowed} :: c in v.borrowed ==> 8 * w / Coverage(lowest) !in v.borrowed[c].forced
  }

  ghost predicate KernelStack(lowest: nat, v: View, held: map<nat, nat>, start: Transitions.Origin)
    requires lowest <= 1
  {
    forall w: nat {:trigger KernelWord(lowest, v, held, w)} :: start.low <= w < start.rsp ==>
      KernelWord(lowest, v, held, w)
  }

  /**
  The kernel does not return the word, nor force it on a new compartment.  All other operations, and
  in particular all that a compartment can ask for, are unrestricted.
  */
  ghost predicate Spares(operation: Operation, w: nat) {
    match operation
    case Create(_, predefined) => PermissionAt(predefined, 8 * w) != Some(ForceKernelWrite)
    case Dealloc(c, base, size) => c == NO_OWNER ==> !(base <= 8 * w < base + size)
    case _ => true
  }

  /** No operation takes the unit from the kernel. */
  lemma StaysHeld(lowest: nat, v: View, v': View, held: map<nat, nat>, operation: Operation, result: Result, w: nat)
    requires lowest <= 1 && KernelWord(lowest, v, held, w) && HandedOk(lowest, v, held) && Spares(operation, w)
    requires Enabled(lowest, v.free, v.roots, held, operation) && Stepped(lowest, v, v', operation, result)
    requires NO_OWNER !in v.roots
    ensures var u, held' := 8 * w / UnitSize(lowest), HandedAfter(lowest, held, operation, result);
            u in held' && held'[u] == NO_OWNER
  {
    var u := 8 * w / UnitSize(lowest);
    assert HandedAt(lowest, v, held, u);
    match operation
    case Dealloc(c, base, size) => UnitRange(lowest, base, size, 8 * w);
    case DeallocChunk(c, p, size, slabSize) =>
      if result == Ok && p + size >= WORD { WrappedChunkIsHigh(lowest, p, size, slabSize, u); }
      else if result == Ok { assert OwnerOf(v.owner, u) == NO_OWNER; }
    case _ =>
  }

  /** No operation forces the page on a compartment. */
  lemma StaysUnforced(lowest: nat, v: View, v': View, held: map<nat, nat>, operation: Operation, result: Result,
                      w: nat, c: nat)
    requires lowest <= 1 && KernelWord(lowest, v, held, w) && Spares(operation, w) && c in v'.borrowed
    requires Enabled(lowest, v.free, v.roots, held, operation) && Stepped(lowest, v, v', operation, result)
    ensures 8 * w / Coverage(lowest) !in v'.borrowed[c].forced
  {
    match operation
    case Create(d, predefined) => ForcedIff(lowest, predefined, 8 * w);
    case Destroy(d) => var mid :| Destroyed(lowest, v, mid, v', d);
    case _ =>
  }

  lemma KernelStackStays(lowest: nat, kernelRoot: nat, v: View, v': View, held: map<nat, nat>, held': map<nat, nat>,
                         operation: Operation, result: Option<Result>, start: Transitions.Origin)
    requires lowest <= 1 && StepDone(lowest, kernelRoot, v, v', held, held', operation, result)
    requires KernelStack(lowest, v, held, start)
    requires forall w: nat :: start.low <= w < start.rsp ==> Spares(operation, w)
    ensures KernelStack(lowest, v', held', start)
  {
    forall w: nat | start.low <= w < start.rsp ensures KernelWord(lowest, v', held', w) {
      assert KernelWord(lowest, v, held, w) && Spares(operation, w);
      if result.Some? {
        StaysHeld(lowest, v, v', held, operation, result.value, w);
        forall c | c in v'.borrowed ensures 8 * w / Coverage(lowest) !in v'.borrowed[c].forced {
          StaysUnforced(lowest, v, v', held, operation, result.value, w, c);
        }
      }
    }
  }

  lemma KernelStackIsProtected(lowest: nat, kernelRoot: nat, v: View, held: map<nat, nat>, start: Transitions.Origin)
    requires lowest <= 1 && ViewOk(lowest, kernelRoot, v) && HandedOk(lowest, v, held)
    requires 0 <= start.low && 8 * start.rsp <= ADDRESS_LIMIT && KernelStack(lowest, v, held, start)
    ensures Transitions.Protects(WordsOf(lowest, v), start)
  {
    forall c, w: nat | c in v.roots && start.low <= w < start.rsp ensures !WritesLeaf(lowest, v, c, w) {
      assert KernelWord(lowest, v, held, w) && HandedAt(lowest, v, held, 8 * w / UnitSize(lowest));
      assert RootOk(kernelRoot, v, c) && CompartmentOk(lowest, v, c);
      assert AccessAt(lowest, v.store, v.roots[c], v.owner, v.borrowed[c], c, 8 * w);
    }
  }

  ghost predicate SparesAt(operations: seq<Operation>, start: Transitions.Origin, i: nat)
    requires i < |operations|
  {
    forall w: nat :: start.low <= w < start.rsp ==> Spares(operations[i], w)
  }

  lemma {:induction false} KernelStackThroughout(
    lowest: nat, kernelRoot: nat, views: seq<View>, held: seq<map<nat, nat>>,
    operations: seq<Operation>, results: seq<Option<Result>>, start: Transitions.Origin, n: nat)
    requires lowest <= 1 && IsRun(lowest, kernelRoot, views, held, operations, results) && n <= |operations|
    requires KernelStack(lowest, views[0], held[0], start)
    requires forall i: nat {:trigger SparesAt(operations, start, i)} :: i < |operations| ==>
               SparesAt(operations, start, i)
    ensures KernelStack(lowest, views[n], held[n], start)
  {
    if n > 0 {
      var m := n - 1;
      KernelStackThroughout(lowest, kernelRoot, views, held, operations, results, start, m);
      assert RunStep(lowest, kernelRoot, views, held, operations, results, m) && SparesAt(operations, start, m);
      KernelStackStays(lowest, kernelRoot, views[m], views[n], held[m], held[n], operations[m], results[m], start);
    }
  }

  /**
  While the kernel holds the units of its stack, gives none of them back and forces none of its pages
  on a compartment, ring 0 cannot write the stack under any compartment's page table: after every
  operation of every run, whatever the compartments ask for.
  */
  method RunProtected(backend: Backend, operations: seq<Operation>, handed: map<nat, nat>, start: Transitions.Origin)
    returns (results: seq<Option<Result>>, ghost views: seq<View>)
    requires backend.Valid() && HandedOk(backend.tables.lowest, backend.V(), handed)
    requires 0 <= start.low && 8 * start.rsp <= ADDRESS_LIMIT
    requires KernelStack(backend.tables.lowest, backend.V(), handed, start)
    requires forall i: nat {:trigger SparesAt(operations, start, i)} :: i < |operations| ==>
               SparesAt(operations, start, i)
    modifies backend, backend.lists, backend.tables`store, backend.tables`place, backend.tables`freed
    ensures backend.Valid() && |views| == |operations| + 1
    ensures views[0] == old(backend.V()) && views[|operations|] == backend.V()
    ensures forall i: nat :: i <= |operations| ==> Transitions.Protects(WordsOf(backend.tables.lowest, views[i]), start)
    ensures Transitions.Protects(WritableWords(backend), start)
  {
    var held;
    results, views, held := backend.Run(operations, handed);
    ghost var lowest, kernelRoot := backend.tables.lowest, backend.tables.kernelRoot;
    forall i: nat | i <= |operations| ensures Transitions.Protects(WordsOf(lowest, views[i]), start) {
      KernelStackThroughout(lowest, kernelRoot, views, held, operations, results, start, i);
      if i < |operations| { assert RunStep(lowest, kernelRoot, views, held, operations, results, i); }
      KernelStackIsProtected(lowest, kernelRoot, views[i], held[i], start);
    }
    WordsAre(backend);
  }
}
