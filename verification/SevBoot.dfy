/** What holds of the memory of every confidential guest that boots. */
module SevBoot {
  import opened Common
  import opened Words
  import opened AddressRanges
  import opened Sequences
  import opened SevHeap

  // --- The heap is the validated memory --------------------------------------------

  /** The page of the address is wholly inside entry i, below the virtual top of memory and not before the heap. */
  predicate Usable(p: Platform, i: nat, address: Word)
    requires i < |p.memoryMap|
  {
    var e, page := p.memoryMap[i], AlignDown(address, p.pageSize);
    && (if i == 0 then p.heapStart <= address else e.start <= page)
    && page + p.pageSize <= e.End()
    && (p.vtom != 0 ==> page + p.pageSize <= p.vtom)
  }

  lemma PieceIsUsable(p: Platform, i: nat, address: Word)
    requires p.Valid() && i < |p.memoryMap| && EntryOk(p, i)
    ensures Usable(p, i, address) <==> exists r :: r in PieceOf(p, i) && r.Overlaps(address)
  {
    var e := p.memoryMap[i];
    if i == 0 {
      DownEndKeepsBlocks(AddressRange(p.heapStart, Clip(p, e)), address, p.pageSize);
      assert PieceOf(p, i)[0] == AddressRange(p.heapStart, Clip(p, e)).AlignDownEnd(p.pageSize);
    } else if e.start < Clip(p, e) {
      RestrictKeepsWholeBlocks(AddressRange(e.start, Clip(p, e)), address, p.pageSize);
      assert PieceOf(p, i)[0] == AddressRange(e.start, Clip(p, e)).AlignRestrict(p.pageSize);
    }
  }

  lemma {:induction false} PiecesAre(p: Platform, n: nat, r: AddressRange)
    requires n <= |p.memoryMap| && EntriesOk(p, n)
    ensures r in Pieces(p, n) <==> exists i: nat :: i < n && EntryOk(p, i) && r in PieceOf(p, i)
  {
    if n > 0 {
      assert EntryOk(p, n - 1);
      PiecesAre(p, n - 1, r);
    }
  }

  /**
  After setup_heap_sev the heap addresses are exactly those on whole pages of the accepted
  memory map that lie below the virtual top of memory and, in the first entry, from the heap start on.
  */
  lemma HeapIsValidatedMemory(p: Platform, address: Word)
    requires p.Valid() && Acceptable(p)
    ensures (exists r :: r in Pieces(p, |p.memoryMap|) && r.Overlaps(address))
       <==> (exists i: nat :: i < |p.memoryMap| && Usable(p, i, address))
  {
    var n := |p.memoryMap|;
    if r :| r in Pieces(p, n) && r.Overlaps(address) {
      PiecesAre(p, n, r);
      var i: nat :| i < n && EntryOk(p, i) && r in PieceOf(p, i);
      PieceIsUsable(p, i, address);
    }
    if i: nat :| i < n && Usable(p, i, address) {
      assert EntryOk(p, i);
      PieceIsUsable(p, i, address);
      var r :| r in PieceOf(p, i) && r.Overlaps(address);
      PiecesAre(p, n, r);
    }
  }

  /** Recorded ranges never overlap: each ends before any later one starts. */
  lemma {:induction false} RangesDisjoint(p: Platform, j: nat, k: nat)
    requires p.Valid() && Acceptable(p) && j < k < |Pieces(p, |p.memoryMap|)|
    ensures Pieces(p, |p.memoryMap|)[j].end <= Pieces(p, |p.memoryMap|)[k].start
  {
    var n := |p.memoryMap|;
    HeapLayout(p, n);
    assert RangeOk(p, n, Pieces(p, n), k);
    if j < k - 1 {
      RangesDisjoint(p, j, k - 1);
      assert RangeOk(p, n, Pieces(p, n), k - 1);
    }
  }

  /**
  The memory left for sharing with the host: page aligned, below 2^48, part of one map entry and
  above every heap range; none exactly without a virtual top of memory.
  */
  lemma VisibleMemoryIsSeparate(p: Platform, above: Span)
    requires p.Valid() && Acceptable(p) && IsAbove(p, |p.memoryMap|, above)
    ensures p.vtom == 0 <==> above.size == 0
    ensures IsAligned(above.base, p.pageSize) && above.base + above.size <= ADDRESS_LIMIT
    ensures above.size > 0 ==>
              && above.base == p.vtom
              && (exists e :: e in p.memoryMap && e.start <= above.base && above.base + above.size == e.End())
              && forall r :: r in Pieces(p, |p.memoryMap|) ==> r.end <= above.base
  {
    var n := |p.memoryMap|;
    if p.vtom != 0 {
      var j: nat :| j < n && AboveTop(p, j) && NoneAbove(p, j)
                 && above.base == p.vtom && above.base + above.size == p.memoryMap[j].End();
      assert EntryOk(p, j) && p.memoryMap[j] in p.memoryMap;
      HeapLayout(p, n);
      forall r | r in Pieces(p, n) ensures r.end <= above.base {
        var k: nat :| k < |Pieces(p, n)| && Pieces(p, n)[k] == r;
        assert RangeOk(p, n, Pieces(p, n), k);
      }
    } else {
      assert NoneAbove(p, n);
    }
  }

  // --- Acceptance ------------------------------------------------------------------

  /** The sections that are not loaded: from the first whole 4 KiB page to the first heap page boundary. */
  function UnloadedAcceptance(p: Platform, unloadedStart: Word): AddressRange {
    Between(unloadedStart, p.heapStart).AlignUpStart(HV_PAGE_SIZE).AlignUpEnd(p.pageSize)
  }

  /** It ends exactly at the heap start aligned up to a page, also when no whole 4 KiB page is left. */
  lemma UnloadedAcceptanceIs(p: Platform, unloadedStart: Word)
    requires p.Valid() && unloadedStart <= p.heapStart
    ensures UnloadedAcceptance(p, unloadedStart)
         == AddressRange(AlignUp(unloadedStart, HV_PAGE_SIZE), AlignUp(p.heapStart, p.pageSize))
    ensures IsAlignedBlock(UnloadedAcceptance(p, unloadedStart))
  {
    AlignUpTwice(unloadedStart, p.heapStart, p.pageSize);
    AlignedToSmall(AlignUp(p.heapStart, p.pageSize), p.pageSize);
  }

  lemma AlignUpTwice(x: Word, y: Word, a: Alignment)
    requires x <= y < ADDRESS_LIMIT
    ensures AlignUp(x, HV_PAGE_SIZE) <= AlignUp(y, a)
    ensures y <= AlignUp(x, HV_PAGE_SIZE) ==> AlignUp(AlignUp(x, HV_PAGE_SIZE), a) == AlignUp(y, a)
  {
    AlignedToSmall(AlignUp(y, a), a);
    UpIsLeast(x, HV_PAGE_SIZE, AlignUp(y, a));
    if y <= AlignUp(x, HV_PAGE_SIZE) {
      UpIsBetween(AlignUp(x, HV_PAGE_SIZE), y, a);
    }
  }

  lemma UpIsBetween(up: Word, y: Word, a: Alignment)
    requires y < ADDRESS_LIMIT && y <= up <= AlignUp(y, a)
    ensures AlignUp(up, a) == AlignUp(y, a)
  {
    UpIsLeast(up, a, AlignUp(y, a));
    UpIsLeast(y, a, AlignUp(up, a));
  }

  /** No page is accepted twice. */
  lemma AcceptedOnce(p: Platform, unloadedStart: Word)
    requires p.Valid() && Acceptable(p) && |p.memoryMap| > 0 && unloadedStart <= p.heapStart
    ensures NoDuplicates(Blocks(UnloadedAcceptance(p, unloadedStart)) + Blocks(HeapAcceptance(p)))
  {
    var unloaded, heap := UnloadedAcceptance(p, unloadedStart), HeapAcceptance(p);
    UnloadedAcceptanceIs(p, unloadedStart);
    HeapAcceptanceIs(p);
    forall b: Word ensures b in Blocks(unloaded) ==> b !in Blocks(heap) {
      BlocksAre(unloaded, b);
      BlocksAre(heap, b);
    }
    BlocksAre(unloaded, 0);
    BlocksAre(heap, 0);
    NoDuplicatesConcat(Blocks(unloaded), Blocks(heap));
  }

  /**
  Every heap page is accepted, unless it is the page that the loaded sections end in, which
  came with the image.
  */
  lemma HeapIsAccepted(p: Platform, unloadedStart: Word, r: AddressRange, address: Word)
    requires p.Valid() && Acceptable(p) && unloadedStart <= p.heapStart
    requires r in Pieces(p, |p.memoryMap|) && r.Overlaps(address)
    ensures AlignDown(address, HV_PAGE_SIZE)
              in Blocks(UnloadedAcceptance(p, unloadedStart)) + Blocks(HeapAcceptance(p))
       <==> AlignDown(address, HV_PAGE_SIZE) >= AlignUp(unloadedStart, HV_PAGE_SIZE)
  {
    var b := AlignDown(address, HV_PAGE_SIZE);
    UnloadedAcceptanceIs(p, unloadedStart);
    HeapAcceptanceIs(p);
    BlocksAre(UnloadedAcceptance(p, unloadedStart), b);
    BlocksAre(HeapAcceptance(p), b);
    EndsBeforeHeapEnd(p, r);
    AlignUpTwice(unloadedStart, p.heapStart, p.pageSize);
    AlignedToSmall(AlignUp(p.heapStart, p.pageSize), p.pageSize);
  }

  lemma EndsBeforeHeapEnd(p: Platform, r: AddressRange)
    requires p.Valid() && Acceptable(p) && r in Pieces(p, |p.memoryMap|)
    ensures r.end <= HeapEnd(p)
  {
    var rs := Pieces(p, |p.memoryMap|);
    var k :| 0 <= k < |rs| && rs[k] == r;
    HeapLayout(p, |p.memoryMap|);
    if k < |rs| - 1 {
      RangesDisjoint(p, k, |rs| - 1);
      assert RangeOk(p, |p.memoryMap|, rs, |rs| - 1);
    }
  }

  /** A whole page at this address lies between the bounds. */
  predicate PageBetween(start: nat, end: nat, pageSize: Alignment, page: nat) {
    IsAligned(page, pageSize) && start <= page && page + pageSize <= end
  }

  ghost predicate PageWithin(start: nat, end: nat, pageSize: Alignment) {
    exists page: nat :: PageBetween(start, end, pageSize, page)
  }

  /** Rounding both ends inwards leaves something iff there is a whole page between them. */
  lemma HoldsAPageIff(start: Word, end: Word, pageSize: Alignment)
    requires start <= end <= ADDRESS_LIMIT
    ensures AlignUp(start, pageSize) < AlignDown(end, pageSize) <==>
            PageWithin(start, end, pageSize)
  {
    var up, down := AlignUp(start, pageSize), AlignDown(end, pageSize);
    if up < down {
      AlignedApart(up, down, pageSize);
      assert PageBetween(start, end, pageSize, up);
    }
    if page: nat :| PageBetween(start, end, pageSize, page) {
      UpIsLeast(start, pageSize, page);
      SumAligned(page, pageSize, pageSize);
      DownIsGreatest(end, pageSize, page + pageSize);
    }
  }

  /**
  Which memory maps are accepted, in plain terms.  Entries are not empty, end at or below 2^48 and do not
  overlap, in order; the first holds the heap start with a page boundary above it; each has a whole page
  below the virtual top of memory, or nothing; a virtual top of memory is page aligned, above the heap
  start and reached by an entry, and the first entry to reach above it does not begin above it.
  */
  ghost predicate PlainlyOk(p: Platform) {
    && (p.vtom != 0 ==>
          && p.heapStart < p.vtom && IsAligned(p.vtom, p.pageSize)
          && ReachedBefore(p, |p.memoryMap|))
    && forall i: nat {:trigger PlainEntry(p, i)} :: i < |p.memoryMap| ==> PlainEntry(p, i)
  }

  ghost predicate PlainEntry(p: Platform, i: nat)
    requires i < |p.memoryMap|
  {
    var e := p.memoryMap[i];
    var end := if p.vtom != 0 && p.vtom < e.End() then p.vtom else e.End();
    && e.size > 0 && e.End() <= ADDRESS_LIMIT
    && (i > 0 ==> p.memoryMap[i - 1].End() <= e.start)
    && (i == 0 ==> e.start <= p.heapStart && BoundaryBetween(p.heapStart, end, p.pageSize))
    && (i > 0 && e.start < end ==> PageWithin(e.start, end, p.pageSize))
    && (end < e.End() && e.start > end ==> ReachedBefore(p, i))
  }

  /** A page boundary above start and at or below end. */
  ghost predicate BoundaryBetween(start: nat, end: nat, pageSize: Alignment) {
    exists x: nat :: IsAligned(x, pageSize) && start < x <= end
  }

  /** One of the first n entries reaches above the virtual top of memory. */
  ghost predicate ReachedBefore(p: Platform, n: nat)
    requires n <= |p.memoryMap|
  {
    exists j: nat :: j < n && p.memoryMap[j].End() > p.vtom
  }

  lemma ReachedIff(p: Platform, n: nat)
    requires n <= |p.memoryMap| && p.vtom != 0
    ensures ReachedBefore(p, n) <==> !NoneAbove(p, n)
  {
    if j: nat :| j < n && p.memoryMap[j].End() > p.vtom { assert AboveTop(p, j); }
    else {
      forall j: nat | j < n ensures !AboveTop(p, j) { assert !(p.memoryMap[j].End() > p.vtom); }
    }
  }

  lemma EntryIsPlain(p: Platform, i: nat)
    requires p.Valid() && i < |p.memoryMap| && (p.vtom != 0 ==> p.heapStart < p.vtom)
    ensures EntryOk(p, i) <==> PlainEntry(p, i)
  {
    var e := p.memoryMap[i];
    if ValidEntry(e) {
      var end := Clip(p, e);
      if e.start <= end { HoldsAPageIff(e.start, end, p.pageSize); }
      BoundaryIff(p.heapStart, end, p.pageSize);
      if p.vtom != 0 { ReachedIff(p, i); }
      assert end == if p.vtom != 0 && p.vtom < e.End() then p.vtom else e.End();
    }
  }

  lemma BoundaryIff(start: Word, end: Word, pageSize: Alignment)
    ensures start < AlignDown(end, pageSize) <==> BoundaryBetween(start, end, pageSize)
  {
    if x: nat :| IsAligned(x, pageSize) && start < x <= end { DownIsGreatest(end, pageSize, x); }
    else { assert IsAligned(AlignDown(end, pageSize), pageSize); }
  }

  /** setup_heap_sev accepts exactly these maps. */
  lemma AcceptableIff(p: Platform)
    requires p.Valid()
    ensures Acceptable(p) <==> PlainlyOk(p)
  {
    if p.vtom != 0 ==> p.heapStart < p.vtom {
      forall i: nat | i < |p.memoryMap| ensures EntryOk(p, i) <==> PlainEntry(p, i) { EntryIsPlain(p, i); }
      if p.vtom != 0 { ReachedIff(p, |p.memoryMap|); }
    }
  }

  predicate InMap(p: Platform, i: nat, address: nat)
    requires i < |p.memoryMap|
  {
    p.memoryMap[i].start <= address < p.memoryMap[i].End()
  }

  predicate InHole(p: Platform, i: nat, address: nat)
    requires i + 1 < |p.memoryMap|
  {
    p.memoryMap[i].End() <= address < p.memoryMap[i + 1].start
  }

  lemma {:induction false} EntriesOrdered(p: Platform, i: nat, j: nat)
    requires EntriesOk(p, |p.memoryMap|) && i < j < |p.memoryMap|
    ensures p.memoryMap[i].End() <= p.memoryMap[j].start
  {
    assert EntryOk(p, j);
    if i < j - 1 {
      EntriesOrdered(p, i, j - 1);
      assert EntryOk(p, j - 1);
    }
  }

  /** The last of the first n entries that begins at or below an address. */
  lemma {:induction false} LastBegun(p: Platform, address: nat, n: nat) returns (i: nat)
    requires 0 < n <= |p.memoryMap| && p.memoryMap[0].start <= address
    ensures i < n && p.memoryMap[i].start <= address && (i + 1 < n ==> address < p.memoryMap[i + 1].start)
  {
    if n == 1 || p.memoryMap[n - 1].start <= address {
      i := n - 1;
    } else {
      i := LastBegun(p, address, n - 1);
    }
  }

  lemma NoHoleInEntry(p: Platform, i: nat, address: nat, k: nat)
    requires EntriesOk(p, |p.memoryMap|) && i < |p.memoryMap| && InMap(p, i, address) && k + 1 < |p.memoryMap|
    ensures !InHole(p, k, address)
  {
    if k + 1 < i { EntriesOrdered(p, k + 1, i); } else if i < k { EntriesOrdered(p, i, k); }
  }

  lemma NoEntryInHole(p: Platform, i: nat, address: nat, k: nat)
    requires EntriesOk(p, |p.memoryMap|) && i + 1 < |p.memoryMap| && InHole(p, i, address) && k < |p.memoryMap|
    ensures !InMap(p, k, address)
  {
    if k < i { EntriesOrdered(p, k, i); } else if i + 1 < k { EntriesOrdered(p, i + 1, k); }
  }

  /** What is accepted as heap but is in no entry of the memory map is exactly the gaps between its entries. */
  lemma AcceptedOutsideMapIff(p: Platform, address: Word)
    requires p.Valid() && Acceptable(p) && HeapAcceptance(p).Overlaps(address)
    ensures (forall i: nat :: i < |p.memoryMap| ==> !InMap(p, i, address)) <==>
            exists i: nat :: i + 1 < |p.memoryMap| && InHole(p, i, address)
  {
    var n := |p.memoryMap|;
    assert n > 0 && p.memoryMap[0].start <= address < p.memoryMap[n - 1].End() by {
      HeapAcceptanceIs(p);
      HeapLayout(p, n);
      assert EntryOk(p, 0);
    }
    var i := LastBegun(p, address, n);
    if address < p.memoryMap[i].End() {
      assert InMap(p, i, address);
      forall k: nat | k + 1 < n ensures !InHole(p, k, address) { NoHoleInEntry(p, i, address, k); }
    } else {
      assert InHole(p, i, address);
      forall k: nat | k < n ensures !InMap(p, k, address) { NoEntryInHole(p, i, address, k); }
    }
  }

  /** The boot sequence: the unloaded sections are accepted, then the heap is set up and accepted. */
  method Boot(p: Platform, loaderMap: seq<MapEntry>, unloadedStart: Word)
    returns (outcome: Outcome, memory: SevMemory)
    requires p.Valid() && p.memoryMap == Regions(loaderMap) && unloadedStart <= p.heapStart
    ensures outcome == Done <==> Acceptable(p)
    ensures outcome == Done && |p.memoryMap| > 0 ==>
              && memory.heap.Valid() && memory.heap.Ranges() == Pieces(p, |p.memoryMap|)
              && memory.accepted == Blocks(UnloadedAcceptance(p, unloadedStart)) + Blocks(HeapAcceptance(p))
              && NoDuplicates(memory.accepted)
  {
    memory := new SevMemory(p.pageSize);
    UnloadedAcceptanceIs(p, unloadedStart);
    memory.AcceptPrivateMemory(UnloadedAcceptance(p, unloadedStart));
    assert memory.accepted == Blocks(UnloadedAcceptance(p, unloadedStart));
    outcome := memory.SetupHeap(p, loaderMap);
    if outcome == Done && |p.memoryMap| > 0 {
      AcceptedOnce(p, unloadedStart);
    }
  }
}
