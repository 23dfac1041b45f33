/**
The operations on compartment memory as steps between views: when each is asked for, what it does,
what its callers hold, and which steps let one compartment read what another owns.
*/
module OwnershipSteps {
  import opened Common
  import Arith
  import opened Words
  import opened Paging
  import opened OwnerRing
  import opened OwnershipViews

  /** Fatal is snmalloc's error exit, Aborted the kernel's. */
  datatype Result = Ok | Fatal | Aborted

  datatype Operation =
    | Create(c: nat, predefined: seq<Range>)
    | Alloc(c: nat, size: Word, answer: Option<nat>)
    | Dealloc(c: nat, base: Word, size: Word)
    | DeallocChunk(c: nat, p: Word, size: Word, slabSize: Word)
    | DeallocAll(c: nat)
    | Fault(c: nat, a: Word, inKernel: bool, isWrite: bool, isHeap: bool)
    | Destroy(c: nat)

  /** Every unit of the range was given to c (or to the kernel) and not returned. */
  predicate HandedTo(handed: map<nat, nat>, first: nat, count: nat, c: nat) {
    forall u :: first <= u < first + count ==> u in handed && handed[u] == c
  }

  /**
  What the kernel asks for.  The parent range answers with memory it has, and whoever returns a
  range was given it; a compartment may ask to return anything.
  */
  predicate Enabled(lowest: nat, free: set<nat>, roots: map<nat, nat>, handed: map<nat, nat>, operation: Operation)
    requires lowest <= 1
  {
    var unit := UnitSize(lowest);
    match operation
    case Create(c, predefined) =>
      && c != NO_OWNER && c !in roots
      && forall i :: 0 <= i < |predefined| ==> PredefinedOk(lowest, predefined[i])
    case Alloc(c, size, answer) =>
      && (c == NO_OWNER || c in roots)
      && size % unit == 0
      && (answer.Some? ==>
            && answer.value % unit == 0 && answer.value + size <= ADDRESS_LIMIT
            && Units(answer.value / unit, size / unit) <= free)
    case Dealloc(c, base, size) =>
      && (c == NO_OWNER || c in roots)
      && base % unit == 0 && size % unit == 0 && base + size <= ADDRESS_LIMIT
      && HandedTo(handed, base / unit, size / unit, c)
    case DeallocChunk(c, p, size, slabSize) => c in roots && slabSize > 0 && slabSize % unit == 0
    case DeallocAll(c) => c in roots
    case Fault(c, a, inKernel, isWrite, isHeap) => c in roots && (isHeap ==> a < ADDRESS_LIMIT)
    case Destroy(c) => c in roots
  }

  /** The requests to return a chunk that are granted; the owner check is empty when p + size wraps. */
  ghost predicate ChunkOk(lowest: nat, owner: map<nat, nat>, c: nat, p: Word, size: Word, slabSize: Word)
    requires lowest <= 1 && slabSize > 0
  {
    && size == slabSize && p % slabSize == 0
    && (p + size >= WORD || OwnedBy(owner, p / UnitSize(lowest), size / UnitSize(lowest), c))
  }

  /** The faults that are resolved rather than ending the kernel. */
  predicate FaultOk(lowest: nat, owner: map<nat, nat>, c: nat, a: Word, inKernel: bool, isWrite: bool, isHeap: bool)
    requires lowest <= 1
  {
    var o := OwnerOf(owner, a / UnitSize(lowest));
    !inKernel && isHeap && (o == c || (!isWrite && o == NO_OWNER))
  }

  ghost predicate FreeGrows(lowest: nat, v: View, v': View, base: nat, size: nat)
    requires lowest <= 1
  {
    v' == v.(free := v.free + Units(base / UnitSize(lowest), size / UnitSize(lowest)))
  }

  ghost predicate FreeShrinks(lowest: nat, v: View, v': View, base: nat, size: nat)
    requires lowest <= 1
  {
    v' == v.(free := v.free - Units(base / UnitSize(lowest), size / UnitSize(lowest)))
  }

  ghost predicate Destroyed(lowest: nat, v: View, mid: View, v': View, c: nat)
    requires lowest <= 1 && c in v.roots && c in v.borrowed
  {
    && Cleared(lowest, v, mid, c, Ring(v.contents, c)) && RingsMatchOwners(mid.owner, mid.contents)
    && Dropped(lowest, mid, v', c)
  }

  ghost predicate Known(v: View, c: nat) {
    c in v.roots && c in v.borrowed
  }

  ghost predicate Stepped(lowest: nat, v: View, v': View, operation: Operation, result: Result)
    requires lowest <= 1
  {
    match operation
    case Create(c, predefined) =>
      && result == Ok && c in v'.roots && Created(lowest, v, v', c, v'.roots[c], predefined)
    case Alloc(c, size, answer) =>
      && result == Ok
      && (if answer.None? then v' == v
          else if c == NO_OWNER then FreeShrinks(lowest, v, v', answer.value, size)
          else Known(v, c) && Given(lowest, v, v', c, answer.value, size))
    case Dealloc(c, base, size) =>
      && result == Ok
      && (if c == NO_OWNER then FreeGrows(lowest, v, v', base, size)
          else Known(v, c) && Returned(lowest, v, v', c, base, size))
    case DeallocChunk(c, p, size, slabSize) =>
      && slabSize > 0
      && result == (if ChunkOk(lowest, v.owner, c, p, size, slabSize) then Ok else Aborted)
      && (if result == Aborted then v' == v
          else if p + size >= WORD then FreeGrows(lowest, v, v', p, size)
          else Known(v, c) && Returned(lowest, v, v', c, p, size))
    case DeallocAll(c) =>
      && result == Ok && Known(v, c) && Cleared(lowest, v, v', c, Ring(v.contents, c))
      && RingsMatchOwners(v'.owner, v'.contents)
    case Fault(c, a, inKernel, isWrite, isHeap) =>
      && result == (if FaultOk(lowest, v.owner, c, a, inKernel, isWrite, isHeap) then Ok else Aborted)
      && (if result == Aborted then v' == v else Known(v, c) && FaultedIn(lowest, v, v', c, a))
    case Destroy(c) =>
      && result == Ok && Known(v, c) && exists mid :: Destroyed(lowest, v, mid, v', c)
  }

  // --- What was handed out ---------------------------------------------------------

  function HandedAfter(lowest: nat, handed: map<nat, nat>, operation: Operation, result: Result): map<nat, nat>
    requires lowest <= 1
  {
    var unit := UnitSize(lowest);
    match operation
    case Alloc(c, size, answer) =>
      if answer.Some? then handed + map u | u in Units(answer.value / unit, size / unit) :: c else handed
    case Dealloc(c, base, size) => handed - Units(base / unit, size / unit)
    case DeallocChunk(c, p, size, slabSize) => if result == Ok then handed - Units(p / unit, size / unit) else handed
    case DeallocAll(c) => map u | u in handed && handed[u] != c :: handed[u]
    case Destroy(c) => map u | u in handed && handed[u] != c :: handed[u]
    case Create(_, _) => handed
    case Fault(_, _, _, _, _) => handed
  }

  /** What the callers hold is not free and belongs to them, and whatever is owned is held. */
  ghost predicate HandedAt(lowest: nat, v: View, handed: map<nat, nat>, u: nat)
    requires lowest <= 1
  {
    && (u in handed ==>
          u !in v.free && handed[u] == OwnerOf(v.owner, u) && (u + 1) * UnitSize(lowest) <= ADDRESS_LIMIT)
    && (OwnerOf(v.owner, u) != NO_OWNER ==> u in handed)
  }

  ghost predicate HandedOk(lowest: nat, v: View, handed: map<nat, nat>)
    requires lowest <= 1
  {
    forall u: nat {:trigger HandedAt(lowest, v, handed, u)} :: HandedAt(lowest, v, handed, u)
  }

  /** A chunk whose end wraps lies above every address in use. */
  lemma WrappedChunkIsHigh(lowest: nat, p: Word, size: Word, slabSize: Word, u: nat)
    requires lowest <= 1 && slabSize > 0 && slabSize % UnitSize(lowest) == 0
    requires size == slabSize && p % slabSize == 0 && p + size >= WORD
    ensures p >= WORD / 2
    ensures p / UnitSize(lowest) <= u ==> (u + 1) * UnitSize(lowest) > ADDRESS_LIMIT
  {
    var q := p / slabSize;
    assert p == q * slabSize;
    if q == 0 {
      assert false;
    } else {
      Arith.MulMonotone(1, q, slabSize);
    }
    var unit := UnitSize(lowest);
    assert p < (p / unit + 1) * unit;
    if p / unit <= u { Arith.MulMonotone(p / unit + 1, u + 1, unit); }
  }

  lemma HandedAlloc(lowest: nat, kernelRoot: nat, v: View, v': View, handed: map<nat, nat>, c: nat, size: Word,
                    base: nat, u: nat)
    requires lowest <= 1 && ViewOk(lowest, kernelRoot, v) && HandedAt(lowest, v, handed, u)
    requires Enabled(lowest, v.free, v.roots, handed, Alloc(c, size, Some(base)))
    requires Stepped(lowest, v, v', Alloc(c, size, Some(base)), Ok)
    ensures HandedAt(lowest, v', HandedAfter(lowest, handed, Alloc(c, size, Some(base)), Ok), u)
  {
    FreeIsUnowned(lowest, kernelRoot, v, base / UnitSize(lowest), size / UnitSize(lowest));
    UnitBelow(lowest, base, size, u);
  }

  lemma HandedDealloc(lowest: nat, v: View, v': View, handed: map<nat, nat>, c: nat, first: nat, count: nat, u: nat)
    requires lowest <= 1 && HandedAt(lowest, v, handed, u)
    requires v'.free == v.free + Units(first, count)
    requires OwnersSet(v.owner, v'.owner, first, count, NO_OWNER)
    ensures HandedAt(lowest, v', handed - Units(first, count), u)
  {
    assert OwnerOf(v'.owner, u) == if first <= u < first + count then NO_OWNER else OwnerOf(v.owner, u);
  }

  lemma HandedCleared(lowest: nat, v: View, v': View, handed: map<nat, nat>, c: nat, u: nat)
    requires lowest <= 1 && HandedAt(lowest, v, handed, u) && RingsMatchOwners(v.owner, v.contents) && c != NO_OWNER
    requires OwnersCleared(v.owner, v'.owner, Ring(v.contents, c)) && v'.free == v.free + SetOf(Ring(v.contents, c))
    ensures HandedAt(lowest, v', map u | u in handed && handed[u] != c :: handed[u], u)
  {
    assert OnOwnersRing(v.owner, v.contents, c, u);
    assert OwnerOf(v'.owner, u) == if u in Ring(v.contents, c) then NO_OWNER else OwnerOf(v.owner, u);
  }

  lemma HandedChunk(lowest: nat, v: View, v': View, handed: map<nat, nat>, c: nat, p: Word, size: Word, slabSize: Word,
                    result: Result, u: nat)
    requires lowest <= 1 && HandedAt(lowest, v, handed, u) && slabSize > 0 && slabSize % UnitSize(lowest) == 0
    requires Stepped(lowest, v, v', DeallocChunk(c, p, size, slabSize), result)
    ensures HandedAt(lowest, v', HandedAfter(lowest, handed, DeallocChunk(c, p, size, slabSize), result), u)
  {
    if result == Ok {
      if p + size >= WORD {
        WrappedChunkIsHigh(lowest, p, size, slabSize, u);
      } else {
        HandedDealloc(lowest, v, v', handed, c, p / UnitSize(lowest), size / UnitSize(lowest), u);
      }
    }
  }

  lemma HandedDeallocStep(lowest: nat, v: View, v': View, handed: map<nat, nat>, c: nat, base: Word, size: Word, u: nat)
    requires lowest <= 1 && HandedAt(lowest, v, handed, u)
    requires HandedTo(handed, base / UnitSize(lowest), size / UnitSize(lowest), c)
    requires Stepped(lowest, v, v', Dealloc(c, base, size), Ok)
    ensures HandedAt(lowest, v', HandedAfter(lowest, handed, Dealloc(c, base, size), Ok), u)
  {
    if c != NO_OWNER {
      HandedDealloc(lowest, v, v', handed, c, base / UnitSize(lowest), size / UnitSize(lowest), u);
    }
  }

  lemma HandedStepAt(lowest: nat, kernelRoot: nat, v: View, v': View, handed: map<nat, nat>, operation: Operation,
                     result: Result, u: nat)
    requires lowest <= 1 && ViewOk(lowest, kernelRoot, v) && HandedAt(lowest, v, handed, u)
    requires Enabled(lowest, v.free, v.roots, handed, operation) && Stepped(lowest, v, v', operation, result)
    ensures HandedAt(lowest, v', HandedAfter(lowest, handed, operation, result), u)
  {
    match operation
    case Alloc(c, size, answer) =>
      if answer.Some? { HandedAlloc(lowest, kernelRoot, v, v', handed, c, size, answer.value, u); }
    case Dealloc(c, base, size) =>
      HandedDeallocStep(lowest, v, v', handed, c, base, size, u);
    case DeallocChunk(c, p, size, slabSize) => HandedChunk(lowest, v, v', handed, c, p, size, slabSize, result, u);
    case DeallocAll(c) => HandedCleared(lowest, v, v', handed, c, u);
    case Destroy(c) =>
      var mid :| Destroyed(lowest, v, mid, v', c);
      HandedCleared(lowest, v, mid, handed, c, u);
    case _ =>
  }

  /** Whatever the step, what is handed out stays exactly what is owned or held by the kernel. */
  lemma HandedStep(lowest: nat, kernelRoot: nat, v: View, v': View, handed: map<nat, nat>,
                   operation: Operation, result: Result)
    requires lowest <= 1 && ViewOk(lowest, kernelRoot, v) && HandedOk(lowest, v, handed)
    requires Enabled(lowest, v.free, v.roots, handed, operation) && Stepped(lowest, v, v', operation, result)
    ensures HandedOk(lowest, v', HandedAfter(lowest, handed, operation, result))
  {
    var handed' := HandedAfter(lowest, handed, operation, result);
    forall u: nat ensures HandedAt(lowest, v', handed', u) {
      assert HandedAt(lowest, v, handed, u);
      HandedStepAt(lowest, kernelRoot, v, v', handed, operation, result, u);
    }
  }

  // --- Where the memory is ---------------------------------------------------------

  /** Free, in use by a compartment or in use by the kernel. */
  ghost predicate Present(v: View, handed: map<nat, nat>, u: nat) {
    u in v.free || u in handed
  }

  lemma PresentAfterDealloc(v: View, v': View, handed: map<nat, nat>, c: nat, first: nat, count: nat, u: nat)
    requires HandedTo(handed, first, count, c) && v'.free == v.free + Units(first, count)
    ensures Present(v', handed - Units(first, count), u) <==> Present(v, handed, u)
  {
  }

  lemma PresentAfterChunk(lowest: nat, v: View, v': View, handed: map<nat, nat>, c: nat, p: Word, size: Word,
                          slabSize: Word, result: Result, u: nat)
    requires lowest <= 1 && HandedOk(lowest, v, handed) && c != NO_OWNER && (u + 1) * UnitSize(lowest) <= ADDRESS_LIMIT
    requires slabSize > 0 && slabSize % UnitSize(lowest) == 0
    requires Stepped(lowest, v, v', DeallocChunk(c, p, size, slabSize), result)
    ensures Present(v', HandedAfter(lowest, handed, DeallocChunk(c, p, size, slabSize), result), u)
       <==> Present(v, handed, u)
  {
    if result == Ok {
      var first, count := p / UnitSize(lowest), size / UnitSize(lowest);
      if p + size >= WORD {
        WrappedChunkIsHigh(lowest, p, size, slabSize, u);
      } else {
        forall w: nat | first <= w < first + count ensures w in handed && handed[w] == c {
          assert HandedAt(lowest, v, handed, w) && OwnerOf(v.owner, w) == c;
        }
        PresentAfterDealloc(v, v', handed, c, first, count, u);
      }
    }
  }

  lemma PresentAfterClear(lowest: nat, v: View, v': View, handed: map<nat, nat>, c: nat, u: nat)
    requires lowest <= 1 && HandedAt(lowest, v, handed, u) && RingsMatchOwners(v.owner, v.contents) && c != NO_OWNER
    requires v'.free == v.free + SetOf(Ring(v.contents, c))
    ensures Present(v', map u | u in handed && handed[u] != c :: handed[u], u) <==> Present(v, handed, u)
  {
    assert OnOwnersRing(v.owner, v.contents, c, u);
  }

  /** No operation loses memory or makes some up. */
  lemma PresentStep(lowest: nat, kernelRoot: nat, v: View, v': View, handed: map<nat, nat>, operation: Operation,
                    result: Result, u: nat)
    requires lowest <= 1 && ViewOk(lowest, kernelRoot, v) && HandedOk(lowest, v, handed)
    requires Enabled(lowest, v.free, v.roots, handed, operation) && Stepped(lowest, v, v', operation, result)
    requires (u + 1) * UnitSize(lowest) <= ADDRESS_LIMIT
    ensures Present(v', HandedAfter(lowest, handed, operation, result), u) <==> Present(v, handed, u)
  {
    assert HandedAt(lowest, v, handed, u);
    match operation
    case Dealloc(c, base, size) =>
      PresentAfterDealloc(v, v', handed, c, base / UnitSize(lowest), size / UnitSize(lowest), u);
    case DeallocChunk(c, p, size, slabSize) =>
      assert RootOk(kernelRoot, v, c);
      PresentAfterChunk(lowest, v, v', handed, c, p, size, slabSize, result, u);
    case DeallocAll(c) =>
      assert RootOk(kernelRoot, v, c);
      PresentAfterClear(lowest, v, v', handed, c, u);
    case Destroy(c) =>
      assert RootOk(kernelRoot, v, c);
      var mid :| Destroyed(lowest, v, mid, v', c);
      PresentAfterClear(lowest, v, mid, handed, c, u);
    case _ =>
  }

  // --- Who can read what -----------------------------------------------------------

  /** c can read nothing that another compartment owns. */
  ghost predicate ReadsOnlyOwn(lowest: nat, v: View, c: nat, a: nat)
    requires lowest <= 1 && c in v.roots
  {
    UserReadable(Lookup(lowest, v.store, v.roots[c], a)) ==>
      OwnerOf(v.owner, a / UnitSize(lowest)) == c || OwnerOf(v.owner, a / UnitSize(lowest)) == NO_OWNER
  }

  ghost predicate ReadIsolated(lowest: nat, v: View)
    requires lowest <= 1
  {
    forall c: nat, a: nat {:trigger ReadsOnlyOwn(lowest, v, c, a)} :: c in v.roots && a < ADDRESS_LIMIT ==>
      ReadsOnlyOwn(lowest, v, c, a)
  }

  /** Whether an address of the range lies on a page that another compartment has borrowed. */
  ghost predicate LentOut(lowest: nat, v: View, c: nat, base: nat, size: nat, d: nat, a: nat)
    requires lowest <= 1
  {
    && d in v.roots && d in v.borrowed && d != c
    && base <= a < base + size && a < ADDRESS_LIMIT && a / Coverage(lowest) in v.borrowed[d].readable
  }

  lemma GivenReadsAt(lowest: nat, kernelRoot: nat, v: View, v': View, c: nat, base: nat, size: nat, d: nat, a: nat)
    requires lowest <= 1 && ViewOk(lowest, kernelRoot, v) && c in v.roots && Given(lowest, v, v', c, base, size)
    requires base % UnitSize(lowest) == 0 && size % UnitSize(lowest) == 0
    requires OwnedBy(v.owner, base / UnitSize(lowest), size / UnitSize(lowest), NO_OWNER)
    requires d in v.roots && a < ADDRESS_LIMIT && ReadsOnlyOwn(lowest, v, d, a)
    ensures ReadsOnlyOwn(lowest, v', d, a) <==> !LentOut(lowest, v, c, base, size, d, a)
  {
    assert RootOk(kernelRoot, v, d) && RootOk(kernelRoot, v, c) && CompartmentOk(lowest, v, d);
    assert AccessAt(lowest, v.store, v.roots[d], v.owner, v.borrowed[d], d, a);
    LookupAfter(lowest, kernelRoot, v, v', c, base, size, Map(false, CompartmentWrite), d, a);
    UnitRange(lowest, base, size, a);
    assert OwnerOf(v'.owner, a / UnitSize(lowest)) ==
           if base <= a < base + size then c else OwnerOf(v.owner, a / UnitSize(lowest));
  }

  /**
  Giving memory to c keeps every compartment from reading another's memory exactly when no other
  compartment has borrowed a page of it: pages read while unowned stay mapped.
  */
  lemma GivenIsolatedIff(lowest: nat, kernelRoot: nat, v: View, v': View, c: nat, base: nat, size: nat)
    requires lowest <= 1 && ViewOk(lowest, kernelRoot, v) && c in v.roots && Given(lowest, v, v', c, base, size)
    requires base % UnitSize(lowest) == 0 && size % UnitSize(lowest) == 0
    requires OwnedBy(v.owner, base / UnitSize(lowest), size / UnitSize(lowest), NO_OWNER)
    requires ReadIsolated(lowest, v)
    ensures ReadIsolated(lowest, v') <==> forall d: nat, a: nat :: !LentOut(lowest, v, c, base, size, d, a)
  {
    forall d: nat, a: nat | d in v.roots && a < ADDRESS_LIMIT
      ensures ReadsOnlyOwn(lowest, v', d, a) <==> !LentOut(lowest, v, c, base, size, d, a)
    {
      assert ReadsOnlyOwn(lowest, v, d, a);
      GivenReadsAt(lowest, kernelRoot, v, v', c, base, size, d, a);
    }
  }

  /** Taking memory back never lets anybody read more than before. */
  lemma ReturnedKeepsIsolated(lowest: nat, kernelRoot: nat, v: View, v': View, c: nat, base: nat, size: nat)
    requires lowest <= 1 && ViewOk(lowest, kernelRoot, v) && Known(v, c)
    requires Returned(lowest, v, v', c, base, size)
    requires ReadIsolated(lowest, v)
    ensures ReadIsolated(lowest, v')
  {
    forall d: nat, a: nat | d in v'.roots && a < ADDRESS_LIMIT ensures ReadsOnlyOwn(lowest, v', d, a) {
      assert ReadsOnlyOwn(lowest, v, d, a);
      LookupAfter(lowest, kernelRoot, v, v', c, base, size, Unmap, d, a);
    }
  }

  lemma ClearedKeepsIsolated(lowest: nat, kernelRoot: nat, v: View, v': View, c: nat, visited: seq<nat>)
    requires lowest <= 1 && ViewOk(lowest, kernelRoot, v) && Known(v, c) && Cleared(lowest, v, v', c, visited)
    requires ReadIsolated(lowest, v)
    ensures ReadIsolated(lowest, v')
  {
    forall d: nat, a: nat | d in v'.roots && a < ADDRESS_LIMIT ensures ReadsOnlyOwn(lowest, v', d, a) {
      assert ReadsOnlyOwn(lowest, v, d, a) && RootOk(kernelRoot, v, d);
    }
  }

  /** A fault only lends memory that nobody owns. */
  lemma FaultedKeepsIsolated(lowest: nat, kernelRoot: nat, v: View, v': View, c: nat, a: nat)
    requires lowest <= 1 && ViewOk(lowest, kernelRoot, v) && Known(v, c) && FaultedIn(lowest, v, v', c, a)
    requires OwnerOf(v.owner, a / UnitSize(lowest)) == c || OwnerOf(v.owner, a / UnitSize(lowest)) == NO_OWNER
    requires ReadIsolated(lowest, v)
    ensures ReadIsolated(lowest, v')
  {
    var change := Map(false, if OwnerOf(v.owner, a / UnitSize(lowest)) == c then CompartmentWrite else CompartmentRead);
    forall d: nat, b: nat | d in v'.roots && b < ADDRESS_LIMIT ensures ReadsOnlyOwn(lowest, v', d, b) {
      assert ReadsOnlyOwn(lowest, v, d, b);
      LookupAfter(lowest, kernelRoot, v, v', c, PageBase(lowest, a), Coverage(lowest), change, d, b);
      PageRange(lowest, a, b);
      if b / Coverage(lowest) == a / Coverage(lowest) { PageInUnit(lowest, a, b); }
    }
  }

  /** Whether a predefined range lets a new compartment read memory that some compartment owns. */
  ghost predicate PredefinesOwned(lowest: nat, v: View, predefined: seq<Range>, a: nat)
    requires lowest <= 1
  {
    && a < ADDRESS_LIMIT
    && UserReadable(PredefinedEntry(lowest, predefined, a))
    && OwnerOf(v.owner, a / UnitSize(lowest)) != NO_OWNER
  }

  lemma CreatedIsolatedIff(lowest: nat, kernelRoot: nat, v: View, v': View, c: nat, root: nat, predefined: seq<Range>)
    requires lowest <= 1 && ViewOk(lowest, kernelRoot, v) && Created(lowest, v, v', c, root, predefined)
    requires ReadIsolated(lowest, v)
    ensures ReadIsolated(lowest, v') <==> forall a: nat :: !PredefinesOwned(lowest, v, predefined, a)
  {
    forall a: nat | a < ADDRESS_LIMIT
      ensures ReadsOnlyOwn(lowest, v', c, a) <==> !PredefinesOwned(lowest, v, predefined, a)
    {
      assert UnitOk(lowest, v, a / UnitSize(lowest));
      assert Lookup(lowest, v'.store, root, a) == PredefinedEntry(lowest, predefined, a);
    }
    forall d: nat, a: nat | d in v.roots && a < ADDRESS_LIMIT ensures ReadsOnlyOwn(lowest, v', d, a) {
      assert ReadsOnlyOwn(lowest, v, d, a) && RootOk(kernelRoot, v, d);
      assert TablesKept(lowest, v.store, v.place, v'.store, v'.place, v.roots[d]);
    }
  }

  lemma DroppedKeepsIsolated(lowest: nat, v: View, v': View, c: nat, kernelRoot: nat)
    requires lowest <= 1 && RootsOk(kernelRoot, v) && c in v.roots && Dropped(lowest, v, v', c)
    requires ReadIsolated(lowest, v)
    ensures ReadIsolated(lowest, v')
  {
    forall d: nat, a: nat | d in v'.roots && a < ADDRESS_LIMIT ensures ReadsOnlyOwn(lowest, v', d, a) {
      assert ReadsOnlyOwn(lowest, v, d, a) && RootOk(kernelRoot, v, d);
      assert TablesKept(lowest, v.store, v.place, v'.store, v'.place, v.roots[d]);
    }
  }

  /** The two kinds of step that let a compartment read what another one owns, seen before the step. */
  ghost predicate Lends(lowest: nat, v: View, operation: Operation)
    requires lowest <= 1
  {
    match operation
    case Create(c, predefined) => exists a: nat :: PredefinesOwned(lowest, v, predefined, a)
    case Alloc(c, size, answer) =>
      && answer.Some? && c != NO_OWNER
      && exists d: nat, a: nat :: LentOut(lowest, v, c, answer.value, size, d, a)
    case _ => false
  }

  lemma ClearedRoots(lowest: nat, kernelRoot: nat, v: View, v': View, c: nat, visited: seq<nat>)
    requires lowest <= 1 && RootsOk(kernelRoot, v) && Known(v, c) && Cleared(lowest, v, v', c, visited)
    ensures RootsOk(kernelRoot, v')
  {
    forall d | d in v'.roots ensures RootOk(kernelRoot, v', d) {
      assert RootOk(kernelRoot, v, d);
    }
  }

  lemma FreeDoesNotMatter(lowest: nat, v: View, v': View)
    requires lowest <= 1 && v' == v.(free := v'.free) && ReadIsolated(lowest, v)
    ensures ReadIsolated(lowest, v')
  {
    forall d: nat, a: nat | d in v'.roots && a < ADDRESS_LIMIT ensures ReadsOnlyOwn(lowest, v', d, a) {
      assert ReadsOnlyOwn(lowest, v, d, a);
    }
  }

  /** One step keeps compartments from reading each other's memory exactly when it does not lend. */
  lemma IsolatedStep(lowest: nat, kernelRoot: nat, v: View, v': View, handed: map<nat, nat>,
                     operation: Operation, result: Result)
    requires lowest <= 1 && ViewOk(lowest, kernelRoot, v)
    requires Enabled(lowest, v.free, v.roots, handed, operation) && Stepped(lowest, v, v', operation, result)
    requires ReadIsolated(lowest, v)
    ensures ReadIsolated(lowest, v') <==> !Lends(lowest, v, operation)
  {
    match operation
    case Create(c, predefined) => CreatedIsolatedIff(lowest, kernelRoot, v, v', c, v'.roots[c], predefined);
    case Alloc(c, size, answer) =>
      if answer.Some? {
        if c == NO_OWNER {
          FreeDoesNotMatter(lowest, v, v');
        } else {
          FreeIsUnowned(lowest, kernelRoot, v, answer.value / UnitSize(lowest), size / UnitSize(lowest));
          GivenIsolatedIff(lowest, kernelRoot, v, v', c, answer.value, size);
        }
      }
    case Dealloc(c, base, size) =>
      if c == NO_OWNER { FreeDoesNotMatter(lowest, v, v'); }
      else { ReturnedKeepsIsolated(lowest, kernelRoot, v, v', c, base, size); }
    case DeallocChunk(c, p, size, slabSize) =>
      if result == Ok {
        if p + size >= WORD { FreeDoesNotMatter(lowest, v, v'); }
        else { ReturnedKeepsIsolated(lowest, kernelRoot, v, v', c, p, size); }
      }
    case DeallocAll(c) => ClearedKeepsIsolated(lowest, kernelRoot, v, v', c, Ring(v.contents, c));
    case Fault(c, a, inKernel, isWrite, isHeap) =>
      if result == Ok { FaultedKeepsIsolated(lowest, kernelRoot, v, v', c, a); }
    case Destroy(c) =>
      var mid :| Destroyed(lowest, v, mid, v', c);
      ClearedKeepsIsolated(lowest, kernelRoot, v, mid, c, Ring(v.contents, c));
      ClearedRoots(lowest, kernelRoot, v, mid, c, Ring(v.contents, c));
      DroppedKeepsIsolated(lowest, mid, v', c, kernelRoot);
  }

  lemma FreeIsUnowned(lowest: nat, kernelRoot: nat, v: View, first: nat, count: nat)
    requires lowest <= 1 && ViewOk(lowest, kernelRoot, v) && Units(first, count) <= v.free
    ensures OwnedBy(v.owner, first, count, NO_OWNER)
  {
    forall u: nat | first <= u < first + count ensures OwnerOf(v.owner, u) == NO_OWNER {
      assert UnitOk(lowest, v, u) && u in Units(first, count);
    }
  }

  /** Memory given to c and taken back again is as before, and c has no page of it left. */
  lemma GivenThenReturned(lowest: nat, v: View, v': View, v'': View, c: nat, base: nat, size: nat)
    requires lowest <= 1 && c in v.roots && Given(lowest, v, v', c, base, size)
    requires Known(v', c) && Returned(lowest, v', v'', c, base, size)
    requires base % UnitSize(lowest) == 0 && size % UnitSize(lowest) == 0
    requires Units(base / UnitSize(lowest), size / UnitSize(lowest)) <= v.free
    requires OwnedBy(v.owner, base / UnitSize(lowest), size / UnitSize(lowest), NO_OWNER)
    ensures v''.free == v.free && v''.roots == v.roots
    ensures forall u: nat {:trigger OwnerOf(v''.owner, u)} :: OwnerOf(v''.owner, u) == OwnerOf(v.owner, u)
    ensures c in v''.borrowed && v''.borrowed[c].readable !! PagesOf(lowest, base, size)
  {
    forall u: nat ensures OwnerOf(v''.owner, u) == OwnerOf(v.owner, u) {
      assert OwnerOf(v''.owner, u) ==
             if u in Units(base / UnitSize(lowest), size / UnitSize(lowest)) then NO_OWNER else OwnerOf(v'.owner, u);
    }
  }

  // --- Runs ------------------------------------------------------------------------

  /** The operation either is not one that is asked for, or does its step. */
  ghost predicate StepDone(lowest: nat, kernelRoot: nat, v: View, v': View,
                           handed: map<nat, nat>, handed': map<nat, nat>,
                           operation: Operation, result: Option<Result>)
    requires lowest <= 1
  {
    && ViewOk(lowest, kernelRoot, v) && HandedOk(lowest, v, handed)
    && (result.Some? <==> Enabled(lowest, v.free, v.roots, handed, operation))
    && (if result.Some?
        then && Stepped(lowest, v, v', operation, result.value)
             && handed' == HandedAfter(lowest, handed, operation, result.value)
        else v' == v && handed' == handed)
  }

  ghost predicate RunStep(lowest: nat, kernelRoot: nat, views: seq<View>, held: seq<map<nat, nat>>,
                          operations: seq<Operation>, results: seq<Option<Result>>, i: nat)
    requires lowest <= 1 && i < |operations| == |results| && |views| == |held| == |operations| + 1
  {
    StepDone(lowest, kernelRoot, views[i], views[i + 1], held[i], held[i + 1], operations[i], results[i])
  }

  ghost predicate IsRun(lowest: nat, kernelRoot: nat, views: seq<View>, held: seq<map<nat, nat>>,
                        operations: seq<Operation>, results: seq<Option<Result>>)
    requires lowest <= 1
  {
    && |operations| == |results| && |views| == |held| == |operations| + 1
    && forall i: nat {:trigger RunStep(lowest, kernelRoot, views, held, operations, results, i)} :: i < |operations| ==>
         RunStep(lowest, kernelRoot, views, held, operations, results, i)
  }

  lemma NeverFatal(lowest: nat, kernelRoot: nat, views: seq<View>, held: seq<map<nat, nat>>,
                   operations: seq<Operation>, results: seq<Option<Result>>)
    requires lowest <= 1 && IsRun(lowest, kernelRoot, views, held, operations, results)
    ensures Some(Fatal) !in results
  {
    forall i: nat | i < |results| ensures results[i] != Some(Fatal) {
      assert RunStep(lowest, kernelRoot, views, held, operations, results, i);
    }
  }

  /** The first n operations of a run from v0 were performed; the state is now v. */
  ghost predicate RunTo(lowest: nat, kernelRoot: nat, views: seq<View>, held: seq<map<nat, nat>>,
                        operations: seq<Operation>, results: seq<Option<Result>>, n: nat,
                        v0: View, handed0: map<nat, nat>, v: View)
    requires lowest <= 1
  {
    && n <= |operations| && IsRun(lowest, kernelRoot, views, held, operations[..n], results)
    && views[0] == v0 && held[0] == handed0
    && views[n] == v && HandedOk(lowest, v, held[n])
  }

  lemma RunExtends(lowest: nat, kernelRoot: nat, views: seq<View>, held: seq<map<nat, nat>>,
                   operations: seq<Operation>, results: seq<Option<Result>>, n: nat,
                   v0: View, handed0: map<nat, nat>, v: View, v': View, handed': map<nat, nat>, result: Option<Result>)
    requires lowest <= 1 && n < |operations|
    requires RunTo(lowest, kernelRoot, views, held, operations, results, n, v0, handed0, v)
    requires StepDone(lowest, kernelRoot, v, v', held[n], handed', operations[n], result)
    requires HandedOk(lowest, v', handed')
    ensures RunTo(lowest, kernelRoot, views + [v'], held + [handed'], operations, results + [result], n + 1, v0,
                  handed0, v')
  {
    var views', held', results', operations' := views + [v'], held + [handed'], results + [result], operations[..n + 1];
    forall i: nat | i < |operations'| ensures RunStep(lowest, kernelRoot, views', held', operations', results', i) {
      if i < n {
        assert RunStep(lowest, kernelRoot, views, held, operations[..n], results, i);
      }
    }
  }

  /**
  Over any run of operations, a unit of memory is free or held exactly if it was so at the start: compartments
  and the kernel give back to the heap just what they took from it, whichever way they do it.
  */
  lemma {:induction false} MemoryIsConserved(lowest: nat, kernelRoot: nat, views: seq<View>, held: seq<map<nat, nat>>,
                                             operations: seq<Operation>, results: seq<Option<Result>>, n: nat, u: nat)
    requires lowest <= 1 && IsRun(lowest, kernelRoot, views, held, operations, results) && n <= |operations|
    requires (u + 1) * UnitSize(lowest) <= ADDRESS_LIMIT
    ensures Present(views[n], held[n], u) <==> Present(views[0], held[0], u)
  {
    if n > 0 {
      var m := n - 1;
      MemoryIsConserved(lowest, kernelRoot, views, held, operations, results, m, u);
      assert RunStep(lowest, kernelRoot, views, held, operations, results, m);
      if results[m].Some? {
        PresentStep(lowest, kernelRoot, views[m], views[n], held[m], operations[m], results[m].value, u);
      }
    }
  }

  ghost predicate LendsAt(lowest: nat, views: seq<View>, operations: seq<Operation>, results: seq<Option<Result>>,
                          i: nat)
    requires lowest <= 1 && i < |operations| == |results| && i < |views|
  {
    results[i].Some? && Lends(lowest, views[i], operations[i])
  }

  lemma RunStepIsolated(lowest: nat, kernelRoot: nat, views: seq<View>, held: seq<map<nat, nat>>,
                        operations: seq<Operation>, results: seq<Option<Result>>, i: nat)
    requires lowest <= 1 && i < |operations| == |results| && |views| == |held| == |operations| + 1
    requires RunStep(lowest, kernelRoot, views, held, operations, results, i) && ReadIsolated(lowest, views[i])
    ensures ReadIsolated(lowest, views[i + 1]) <==> !LendsAt(lowest, views, operations, results, i)
  {
    if results[i].Some? {
      IsolatedStep(lowest, kernelRoot, views[i], views[i + 1], held[i], operations[i], results[i].value);
    }
  }

  ghost predicate IsolatedUpTo(lowest: nat, views: seq<View>, n: nat)
    requires lowest <= 1 && n < |views|
  {
    forall i: nat {:trigger ReadIsolated(lowest, views[i])} :: i <= n ==> ReadIsolated(lowest, views[i])
  }

  ghost predicate NothingLent(lowest: nat, views: seq<View>, operations: seq<Operation>,
                              results: seq<Option<Result>>, n: nat)
    requires lowest <= 1 && n <= |operations| == |results| && n <= |views|
  {
    forall i: nat {:trigger LendsAt(lowest, views, operations, results, i)} :: i < n ==>
      !LendsAt(lowest, views, operations, results, i)
  }

  /** No compartment can read what another one owns, at any point of a run, iff no step of the run lends. */
  lemma {:induction false} RunIsolatedIff(lowest: nat, kernelRoot: nat, views: seq<View>, held: seq<map<nat, nat>>,
                                          operations: seq<Operation>, results: seq<Option<Result>>, n: nat)
    requires lowest <= 1 && IsRun(lowest, kernelRoot, views, held, operations, results) && n <= |operations|
    requires ReadIsolated(lowest, views[0])
    ensures IsolatedUpTo(lowest, views, n) <==> NothingLent(lowest, views, operations, results, n)
  {
    if n > 0 {
      var m := n - 1;
      RunIsolatedIff(lowest, kernelRoot, views, held, operations, results, m);
      IsolatedSplit(lowest, views, m);
      LentSplit(lowest, views, operations, results, m);
      if IsolatedUpTo(lowest, views, m) {
        assert RunStep(lowest, kernelRoot, views, held, operations, results, m);
        RunStepIsolated(lowest, kernelRoot, views, held, operations, results, m);
      }
    }
  }

  lemma IsolatedSplit(lowest: nat, views: seq<View>, m: nat)
    requires lowest <= 1 && m + 1 < |views|
    ensures IsolatedUpTo(lowest, views, m + 1) <==> IsolatedUpTo(lowest, views, m) && ReadIsolated(lowest, views[m + 1])
    ensures IsolatedUpTo(lowest, views, m) ==> ReadIsolated(lowest, views[m])
  {
  }

  lemma LentSplit(lowest: nat, views: seq<View>, operations: seq<Operation>, results: seq<Option<Result>>, m: nat)
    requires lowest <= 1 && m < |operations| == |results| && m < |views|
    ensures NothingLent(lowest, views, operations, results, m + 1) <==>
            NothingLent(lowest, views, operations, results, m) && !LendsAt(lowest, views, operations, results, m)
  {
  }
}
