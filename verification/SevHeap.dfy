/**
The heap of a confidential guest: HeapRanges (guest-verona-rt/include/private/heap.h)
and setup_heap_sev (guest-verona-rt/arch/x86_64/hv_sev.cc), which checks the memory
map injected by the loader and carves it at the virtual top of memory.
*/
module SevHeap {
  import opened Common
  import opened Words
  import opened AddressRanges
  import opened Sequences

  const HV_PAGE_SIZE: Alignment := 0x1000
  const MAX_RANGE_COUNT: nat := 32
  const MAP_ENTRIES: nat := 32

  /** An entry of the loader's memory map, in 4 KiB pages. */
  datatype MapEntry = MapEntry(gpaPageOffset: Word, pageCount: Word, flags: Word) {
    predicate IsNull() {
      gpaPageOffset == 0 && pageCount == 0 && flags == 0
    }
  }

  /** The bytes such an entry stands for. */
  datatype Region = Region(start: Word, size: Word) {
    /** The end without wrap-around. */
    function End(): nat {
      start + size
    }
  }

  function RegionOf(e: MapEntry): Region {
    Region(Wrap(e.gpaPageOffset * 0x1000), Wrap(e.pageCount * 0x1000))
  }

  /**
  Entries count 4 KiB pages, and only the low 52 bits of a page number or count matter: an address lies
  in the region iff its page is one of the entry's.
  */
  lemma RegionHolds(e: MapEntry, a: Word)
    ensures var first, count := e.gpaPageOffset % 0x10_0000_0000_0000, e.pageCount % 0x10_0000_0000_0000;
            var r := RegionOf(e);
            r.start <= a < r.End() <==> first <= a / 0x1000 < first + count
  {
    PageScaled(e.gpaPageOffset);
    PageScaled(e.pageCount);
  }

  lemma PageScaled(n: Word)
    ensures Wrap(n * 0x1000) == n % 0x10_0000_0000_0000 * 0x1000
  {
    var q, r := n / 0x10_0000_0000_0000, n % 0x10_0000_0000_0000;
    assert n == q * 0x10_0000_0000_0000 + r;
    assert n * 0x1000 == q * 0x1_0000_0000_0000_0000 + r * 0x1000;
  }

  /** The map is what comes before the first null entry. */
  function Regions(loaderMap: seq<MapEntry>): (r: seq<Region>)
    ensures |r| <= |loaderMap|
  {
    if loaderMap == [] || loaderMap[0].IsNull() then [] else [RegionOf(loaderMap[0])] + Regions(loaderMap[1..])
  }

  /**
  What the loader and the linker decided: the image is linked below 2^48, and vtom is 0
  without a virtual top of memory.
  */
  datatype Platform = Platform(heapStart: Word, vtom: Word, pageSize: Alignment, memoryMap: seq<Region>) {
    predicate Valid() {
      |memoryMap| <= MAP_ENTRIES && heapStart < ADDRESS_LIMIT
    }
  }

  // --- HeapRanges ------------------------------------------------------------------

  /** The page-aligned tail cut off; nothing left is an abort. */
  function AlignEnd(range: Span, pageSize: Alignment): Result
  {
    var aligned := OfSpan(range).AlignDownEnd(pageSize);
    if aligned.IsEmpty() then Nothing else Piece(Span(range.base, aligned.Size()))
  }

  /** Both ends aligned inwards; nothing left is an abort. */
  function Align(range: Span, pageSize: Alignment): Result
  {
    var address := OfSpan(range);
    var aligned := address.AlignRestrict(pageSize);
    if aligned.IsEmpty() then Nothing
    else Piece(Span(Wrap(range.base + Wrap(aligned.start - address.start)), aligned.Size()))
  }

  datatype Result = Nothing | Piece(span: Span)

  /** For a range that does not wrap these are the aligned ranges of AddressRange. */
  lemma AlignEndIs(start: Word, end: Word, pageSize: Alignment)
    requires start < end
    ensures AlignEnd(Span(start, end - start), pageSize)
         == if AlignDown(end, pageSize) <= start then Nothing
            else Piece(Span(start, AlignDown(end, pageSize) - start))
  {
  }

  lemma AlignIs(start: Word, size: Word, pageSize: Alignment)
    requires start + pageSize <= WORD
    ensures Align(Span(start, size), pageSize)
         == var up, down := AlignUp(start, pageSize), AlignDown(Wrap(start + size), pageSize);
            if down <= up then Nothing else Piece(Span(up, down - up))
  {
  }

  class HeapRanges {
    const pageSize: Alignment
    const additional: array<Span>
    var first: Span
    var count: nat

    ghost predicate Valid()
      reads this`count
    {
      additional.Length == MAX_RANGE_COUNT && count <= MAX_RANGE_COUNT
    }

    constructor (pageSize: Alignment)
      ensures Valid() && this.pageSize == pageSize && fresh(additional)
      ensures first == Span(0, 0) && count == 0
    {
      this.pageSize := pageSize;
      additional := new Span[MAX_RANGE_COUNT](_ => Span(0, 0));
      first, count := Span(0, 0), 0;
    }

    /** All recorded ranges, the first one in front. */
    ghost function Ranges(): seq<AddressRange>
      requires Valid()
      reads this`first, this`count, additional
    {
      [OfSpan(first)] + AddressRangesOf(additional[..count])
    }

    method SetFirst(range: Span) returns (outcome: Outcome)
      requires Valid()
      modifies this`first
      ensures outcome == Done <==> AlignEnd(range, pageSize).Piece?
      ensures outcome == Done ==> first == AlignEnd(range, pageSize).span
      ensures outcome == Done && count == 0 ==> Ranges() == [OfSpan(AlignEnd(range, pageSize).span)]
    {
      var aligned := AlignEnd(range, pageSize);
      if aligned.Nothing? { return Abort; }
      first := aligned.span;
      return Done;
    }

    method Add(range: Span) returns (outcome: Outcome)
      requires Valid()
      modifies this`count, additional
      ensures Valid()
      ensures outcome == Done <==> old(count) < MAX_RANGE_COUNT && Align(range, pageSize).Piece?
      ensures outcome == Done ==> count == old(count) + 1
      ensures outcome == Done ==> Ranges() == old(Ranges()) + [OfSpan(Align(range, pageSize).span)]
    {
      if count == additional.Length { return Abort; }
      var aligned := Align(range, pageSize);
      if aligned.Nothing? { return Abort; }
      additional[count] := aligned.span;
      count := count + 1;
      return Done;
    }

    /** The last address of the last range; wraps to the last word when nothing was recorded. */
    function LargestValidAddress(): (address: Word)
      requires Valid()
      reads this`first, this`count, additional
      ensures Wrap(address + 1) == Ranges()[|Ranges()| - 1].end
    {
      if count == 0 then Wrap(OfSpan(first).end - 1) else Wrap(OfSpan(additional[count - 1]).end - 1)
    }

    method IsHeapAddress(address: Word) returns (found: bool)
      requires Valid()
      ensures found <==> exists r :: r in Ranges() && r.Overlaps(address)
    {
      assert Ranges()[0] == OfSpan(first);
      if OfSpan(first).Overlaps(address) { return true; }
      for i := 0 to count
        invariant forall k :: 0 <= k <= i ==> !Ranges()[k].Overlaps(address)
      {
        assert Ranges()[i + 1] == OfSpan(additional[i]);
        if OfSpan(additional[i]).Overlaps(address) { return true; }
      }
      return false;
    }
  }

  function AddressRangesOf(spans: seq<Span>): (r: seq<AddressRange>)
    ensures |r| == |spans| && forall i :: 0 <= i < |r| ==> r[i] == OfSpan(spans[i])
  {
    seq(|spans|, i requires 0 <= i < |spans| => OfSpan(spans[i]))
  }

  // --- Which maps are accepted, and what is recorded for them ----------------------

  predicate ValidEntry(e: Region) {
    e.size != 0 && e.End() <= ADDRESS_LIMIT
  }

  predicate AboveTop(p: Platform, i: nat)
    requires i < |p.memoryMap|
  {
    p.vtom != 0 && p.memoryMap[i].End() > p.vtom
  }

  predicate NoneAbove(p: Platform, n: nat)
    requires n <= |p.memoryMap|
  {
    forall j: nat {:trigger AboveTop(p, j)} :: j < n ==> !AboveTop(p, j)
  }

  /** The end of an entry, cut at the virtual top of memory. */
  function Clip(p: Platform, e: Region): Word
    requires ValidEntry(e)
  {
    if p.vtom != 0 && e.End() > p.vtom then p.vtom else e.End()
  }

  /** The i-th entry is sound, after the ones before it, and the first one holds the heap start. */
  predicate Checked(p: Platform, i: nat)
    requires i < |p.memoryMap|
  {
    var e := p.memoryMap[i];
    && ValidEntry(e)
    && (i > 0 ==> p.memoryMap[i - 1].End() <= e.start)
    && (i == 0 ==> e.start <= p.heapStart < e.End())
  }

  /**
  What the i-th entry has to satisfy, given the ones before it: the first one to reach above
  the virtual top of memory begins below it, and a part below it holds a whole page.
  */
  predicate EntryOk(p: Platform, i: nat)
    requires i < |p.memoryMap|
  {
    var e := p.memoryMap[i];
    && Checked(p, i)
    && (AboveTop(p, i) && NoneAbove(p, i) ==> e.start <= p.vtom)
    && (i == 0 ==> p.heapStart < AlignDown(Clip(p, e), p.pageSize))
    && (i > 0 && e.start < Clip(p, e) ==> AlignUp(e.start, p.pageSize) < AlignDown(Clip(p, e), p.pageSize))
  }

  predicate EntriesOk(p: Platform, n: nat)
    requires n <= |p.memoryMap|
  {
    forall i: nat {:trigger EntryOk(p, i)} :: i < n ==> EntryOk(p, i)
  }

  ghost predicate Acceptable(p: Platform)
  {
    && (p.vtom != 0 ==> p.heapStart < p.vtom && IsAligned(p.vtom, p.pageSize))
    && EntriesOk(p, |p.memoryMap|)
    && (p.vtom != 0 ==> !NoneAbove(p, |p.memoryMap|))
  }

  /** The part of the i-th entry below the virtual top of memory, in whole pages. */
  function PieceOf(p: Platform, i: nat): seq<AddressRange>
    requires i < |p.memoryMap| && ValidEntry(p.memoryMap[i])
  {
    var e := p.memoryMap[i];
    var end := AlignDown(Clip(p, e), p.pageSize);
    if i == 0 then [AddressRange(p.heapStart, end)]
    else if e.start < Clip(p, e) then [AddressRange(AlignUp(e.start, p.pageSize), end)]
    else []
  }

  function Pieces(p: Platform, n: nat): seq<AddressRange>
    requires n <= |p.memoryMap| && EntriesOk(p, n)
  {
    if n == 0 then []
    else
      assert EntryOk(p, n - 1);
      Pieces(p, n - 1) + PieceOf(p, n - 1)
  }

  // --- Accepting pages -------------------------------------------------------------

  /** The 4 KiB blocks that begin in a range, from its start, in order. */
  function Blocks(range: AddressRange): (blocks: seq<Word>)
  {
    var n := if range.start < range.end then (range.end - range.start + 0xFFF) / 0x1000 else 0;
    seq(n, i requires 0 <= i < n => range.start + i * 0x1000)
  }

  predicate IsAlignedBlock(range: AddressRange) {
    IsAligned(range.start, HV_PAGE_SIZE) && IsAligned(range.end, HV_PAGE_SIZE) && range.start <= range.end
  }

  lemma BlockCount(range: AddressRange)
    requires IsAlignedBlock(range)
    ensures range.start + |Blocks(range)| * 0x1000 == range.end
  {
  }

  lemma BlocksAre(range: AddressRange, b: Word)
    requires IsAlignedBlock(range)
    ensures b in Blocks(range) <==> range.Overlaps(b) && IsAligned(b, HV_PAGE_SIZE)
    ensures NoDuplicates(Blocks(range))
  {
    BlockCount(range);
    if range.Overlaps(b) && IsAligned(b, HV_PAGE_SIZE) {
      var k := (b - range.start) / 0x1000;
      assert range.start + k * 0x1000 == b;
      assert Blocks(range)[k] == b;
    }
  }

  /** The size left after the part above the virtual top of memory is taken off, wrapping. */
  function SizeLeft(p: Platform, e: Region): Word
    requires ValidEntry(e)
  {
    if p.vtom != 0 && e.End() > p.vtom then Wrap(e.size - (e.End() - p.vtom)) else e.size
  }

  /** An entry that begins above the virtual top of memory wraps the subtraction and is refused as empty. */
  lemma WrappedEntryIsRefused(p: Platform, e: Region)
    requires ValidEntry(e)
    requires 0 < p.vtom < e.start && IsAligned(p.vtom, p.pageSize)
    ensures SizeLeft(p, e) > e.size
    ensures Align(Span(e.start, SizeLeft(p, e)), p.pageSize) == Nothing
  {
    AlignIs(e.start, SizeLeft(p, e), p.pageSize);
  }

  /** Any other entry is left with its part below the virtual top of memory. */
  lemma NotAllOk(p: Platform, i: nat)
    requires i < |p.memoryMap| && !EntryOk(p, i)
    ensures !EntriesOk(p, |p.memoryMap|)
  {
  }

  lemma ClippedEntry(p: Platform, e: Region)
    requires ValidEntry(e) && (p.vtom == 0 || e.start <= p.vtom)
    ensures e.start + SizeLeft(p, e) == Clip(p, e)
    ensures Align(Span(e.start, SizeLeft(p, e)), p.pageSize)
         == var up, down := AlignUp(e.start, p.pageSize), AlignDown(Clip(p, e), p.pageSize);
            if down <= up then Nothing else Piece(Span(up, down - up))
  {
    AlignIs(e.start, SizeLeft(p, e), p.pageSize);
  }

  lemma FirstPiece(p: Platform)
    requires p.Valid() && |p.memoryMap| > 0 && Checked(p, 0) && (p.vtom != 0 ==> p.heapStart < p.vtom)
    ensures var left := AlignEnd(Span(p.heapStart, Clip(p, p.memoryMap[0]) - p.heapStart), p.pageSize);
            && (left.Piece? <==> EntryOk(p, 0))
            && (left.Piece? ==> PieceOf(p, 0) == [OfSpan(left.span)])
  {
    AlignEndIs(p.heapStart, Clip(p, p.memoryMap[0]), p.pageSize);
  }

  lemma NextPieceOk(p: Platform, i: nat)
    requires p.Valid() && 0 < i < |p.memoryMap| && Checked(p, i)
    requires p.vtom != 0 ==> IsAligned(p.vtom, p.pageSize)
    requires AboveTop(p, i) ==> NoneAbove(p, i)
    requires SizeLeft(p, p.memoryMap[i]) != 0
    ensures Align(Span(p.memoryMap[i].start, SizeLeft(p, p.memoryMap[i])), p.pageSize).Piece? <==> EntryOk(p, i)
  {
    var e := p.memoryMap[i];
    if p.vtom != 0 && e.start > p.vtom {
      WrappedEntryIsRefused(p, e);
    } else {
      ClippedEntry(p, e);
      assert e.start < Clip(p, e);
    }
  }

  lemma NextPieceIs(p: Platform, i: nat)
    requires p.Valid() && 0 < i < |p.memoryMap| && EntryOk(p, i)
    requires AboveTop(p, i) ==> NoneAbove(p, i)
    requires SizeLeft(p, p.memoryMap[i]) != 0
    requires Align(Span(p.memoryMap[i].start, SizeLeft(p, p.memoryMap[i])), p.pageSize).Piece?
    ensures PieceOf(p, i)
         == [OfSpan(Align(Span(p.memoryMap[i].start, SizeLeft(p, p.memoryMap[i])), p.pageSize).span)]
  {
    ClippedEntry(p, p.memoryMap[i]);
  }

  /** An entry that begins at the virtual top of memory leaves nothing to record. */
  lemma EmptyPiece(p: Platform, i: nat)
    requires p.Valid() && i < |p.memoryMap| && Checked(p, i) && SizeLeft(p, p.memoryMap[i]) == 0
    requires p.vtom != 0 ==> p.heapStart < p.vtom
    ensures i > 0 && EntryOk(p, i) && PieceOf(p, i) == []
  {
    assert p.memoryMap[i].start == p.vtom;
  }

  lemma {:induction false} EndsIncrease(p: Platform, j: nat, i: nat)
    requires j < i < |p.memoryMap| && EntriesOk(p, i) && Checked(p, i)
    ensures p.memoryMap[j].End() <= p.memoryMap[i].start
    decreases i
  {
    if j < i - 1 {
      assert EntryOk(p, i - 1);
      EndsIncrease(p, j, i - 1);
    }
  }

  /** Once the virtual top of memory has been passed, every further entry is wholly above it. */
  lemma SkippedPiece(p: Platform, i: nat)
    requires p.Valid() && i < |p.memoryMap| && EntriesOk(p, i) && Checked(p, i) && !NoneAbove(p, i)
    ensures AboveTop(p, i) && EntryOk(p, i) && PieceOf(p, i) == []
  {
    var j: nat :| j < i && AboveTop(p, j);
    EndsIncrease(p, j, i);
  }

  /** The memory above the virtual top of memory: what is left of the first entry that reaches it. */
  ghost predicate IsAbove(p: Platform, n: nat, above: Span)
    requires n <= |p.memoryMap|
  {
    if NoneAbove(p, n) then above == Span(0, 0)
    else exists j: nat :: j < n && AboveTop(p, j) && NoneAbove(p, j)
                       && above.base == p.vtom && above.base + above.size == p.memoryMap[j].End()
  }

  /** The loop over the loader's map meets the regions one by one, and stops after the last. */
  lemma {:induction false} RegionAt(loaderMap: seq<MapEntry>, i: nat)
    requires i <= |Regions(loaderMap)|
    ensures i < |loaderMap| && !loaderMap[i].IsNull() <==> i < |Regions(loaderMap)|
    ensures i < |Regions(loaderMap)| ==> Regions(loaderMap)[i] == RegionOf(loaderMap[i])
  {
    if i > 0 { RegionAt(loaderMap[1..], i - 1); }
  }

  class SevMemory {
    const heap: HeapRanges
    var aboveVtom: Span
    /** Every address given to pvalidate so far. */
    var accepted: seq<Word>

    constructor (pageSize: Alignment)
      ensures fresh(heap) && fresh(heap.additional) && heap.Valid() && heap.pageSize == pageSize
      ensures heap.first == Span(0, 0) && heap.count == 0
      ensures aboveVtom == Span(0, 0) && accepted == []
    {
      heap := new HeapRanges(pageSize);
      aboveVtom, accepted := Span(0, 0), [];
    }

    method AcceptPrivateMemory(range: AddressRange)
      requires range.end + 0x1000 <= WORD
      modifies this`accepted
      ensures accepted == old(accepted) + Blocks(range)
    {
      var address: Word := range.start;
      ghost var k := 0;
      while address < range.end
        invariant k <= |Blocks(range)| && address == range.start + k * 0x1000
        invariant accepted == old(accepted) + Blocks(range)[..k]
      {
        accepted := accepted + [address];
        address := address + HV_PAGE_SIZE;
        k := k + 1;
      }
      assert Blocks(range)[..k] == Blocks(range);
    }

    ghost predicate RangesRecorded(p: Platform, n: nat)
      requires heap.Valid() && n <= |p.memoryMap| && EntriesOk(p, n)
      reads heap`first, heap`count, heap.additional
    {
      if n == 0 then heap.first == Span(0, 0) && heap.count == 0
      else heap.Ranges() == Pieces(p, n) && heap.count < n
    }

    /** The checks on one entry that do not depend on the virtual top of memory. */
    static method ValidateEntry(p: Platform, entry: MapEntry, i: nat, firstEntry: bool, lastEntryEnd: Word)
      returns (outcome: Outcome, entryAddress: Word, entrySize: Word, entryEnd: Word)
      requires p.Valid() && i < |p.memoryMap| && p.memoryMap[i] == RegionOf(entry) && firstEntry == (i == 0)
      requires lastEntryEnd == if i == 0 then 0 else p.memoryMap[i - 1].End()
      ensures outcome == Done <==> Checked(p, i)
      ensures outcome == Done ==> entryAddress == p.memoryMap[i].start && entrySize == p.memoryMap[i].size
      ensures outcome == Done ==> entryEnd == p.memoryMap[i].End()
    {
      entryAddress, entrySize := Wrap(entry.gpaPageOffset * 0x1000), Wrap(entry.pageCount * 0x1000);
      entryEnd := Wrap(entryAddress + entrySize);
      if entrySize == 0 { return Abort, entryAddress, entrySize, entryEnd; }
      if entryEnd < entryAddress || entryEnd > ADDRESS_LIMIT { return Abort, entryAddress, entrySize, entryEnd; }
      if entryAddress < lastEntryEnd { return Abort, entryAddress, entrySize, entryEnd; }
      if firstEntry && (p.heapStart < entryAddress || p.heapStart >= entryEnd) {
        return Abort, entryAddress, entrySize, entryEnd;
      }
      return Done, entryAddress, entrySize, entryEnd;
    }

    /** Takes the part above the virtual top of memory off one checked entry; later ones are skipped. */
    method Carve(p: Platform, i: nat, firstVtomEntry: bool, size: Word, end: Word)
      returns (skip: bool, firstVtomEntry': bool, entrySize: Word, entryEnd: Word)
      requires p.Valid() && i < |p.memoryMap| && ValidEntry(p.memoryMap[i])
      requires firstVtomEntry == NoneAbove(p, i) && IsAbove(p, i, aboveVtom)
      requires size == p.memoryMap[i].size && end == p.memoryMap[i].End()
      modifies this`aboveVtom
      ensures skip == (AboveTop(p, i) && !NoneAbove(p, i))
      ensures firstVtomEntry' == NoneAbove(p, i + 1)
      ensures entrySize == SizeLeft(p, p.memoryMap[i]) && entryEnd == Clip(p, p.memoryMap[i])
      ensures IsAbove(p, i + 1, aboveVtom)
    {
      skip, firstVtomEntry', entrySize, entryEnd := false, firstVtomEntry, size, end;
      if p.vtom != 0 && entryEnd > p.vtom {
        assert AboveTop(p, i);
        var aboveVtomSize := Wrap(entryEnd - p.vtom);
        entryEnd := p.vtom;
        entrySize := Wrap(entrySize as int - aboveVtomSize as int);
        skip := !firstVtomEntry;
        if firstVtomEntry {
          aboveVtom := Span(p.vtom, aboveVtomSize);
          firstVtomEntry' := false;
        }
      }
    }

    /** Records what is left of an entry. */
    method Record(p: Platform, i: nat, firstEntry: bool, entryAddress: Word, entrySize: Word, entryEnd: Word)
      returns (outcome: Outcome)
      requires p.Valid() && heap.Valid() && heap.pageSize == p.pageSize
      requires i < |p.memoryMap| && EntriesOk(p, i) && RangesRecorded(p, i) && Checked(p, i)
      requires p.vtom != 0 ==> p.heapStart < p.vtom && IsAligned(p.vtom, p.pageSize)
      requires AboveTop(p, i) ==> NoneAbove(p, i)
      requires firstEntry == (i == 0) && entryAddress == p.memoryMap[i].start
      requires entrySize == SizeLeft(p, p.memoryMap[i]) && entryEnd == Clip(p, p.memoryMap[i])
      modifies heap, heap.additional
      ensures heap.Valid()
      ensures outcome == Done <==> EntryOk(p, i)
      ensures outcome == Done ==> EntriesOk(p, i + 1) && RangesRecorded(p, i + 1)
    {
      if entrySize == 0 {
        EmptyPiece(p, i);
        OneMorePiece(p, i);
        return Done;
      }
      if firstEntry {
        outcome := RecordFirst(p, entryEnd);
      } else {
        outcome := RecordNext(p, i, entryAddress, entrySize);
      }
    }

    method RecordFirst(p: Platform, entryEnd: Word) returns (outcome: Outcome)
      requires p.Valid() && heap.Valid() && heap.pageSize == p.pageSize
      requires |p.memoryMap| > 0 && RangesRecorded(p, 0) && Checked(p, 0)
      requires p.vtom != 0 ==> p.heapStart < p.vtom
      requires entryEnd == Clip(p, p.memoryMap[0])
      modifies heap, heap.additional
      ensures heap.Valid()
      ensures outcome == Done <==> EntryOk(p, 0)
      ensures outcome == Done ==> EntriesOk(p, 1) && RangesRecorded(p, 1)
    {
      FirstPiece(p);
      outcome := heap.SetFirst(Span(p.heapStart, Wrap(entryEnd - p.heapStart)));
      if outcome == Done { OneMorePiece(p, 0); }
    }

    method RecordNext(p: Platform, i: nat, entryAddress: Word, entrySize: Word) returns (outcome: Outcome)
      requires p.Valid() && heap.Valid() && heap.pageSize == p.pageSize
      requires 0 < i < |p.memoryMap| && EntriesOk(p, i) && RangesRecorded(p, i) && Checked(p, i)
      requires p.vtom != 0 ==> IsAligned(p.vtom, p.pageSize)
      requires AboveTop(p, i) ==> NoneAbove(p, i)
      requires entryAddress == p.memoryMap[i].start && entrySize == SizeLeft(p, p.memoryMap[i]) != 0
      modifies heap, heap.additional
      ensures heap.Valid()
      ensures outcome == Done <==> EntryOk(p, i)
      ensures outcome == Done ==> EntriesOk(p, i + 1) && RangesRecorded(p, i + 1)
    {
      NextPieceOk(p, i);
      outcome := heap.Add(Span(entryAddress, entrySize));
      if outcome == Done {
        NextPieceIs(p, i);
        OneMorePiece(p, i);
      }
    }

    ghost predicate MapRecorded(p: Platform, n: nat)
      requires heap.Valid() && n <= |p.memoryMap| && EntriesOk(p, n)
      reads this`aboveVtom, heap`first, heap`count, heap.additional
    {
      RangesRecorded(p, n) && IsAbove(p, n, aboveVtom)
    }

    /** What the loop over the memory map knows after n entries. */
    ghost predicate Scanned(p: Platform, n: nat, firstEntry: bool, firstVtomEntry: bool, lastEntryEnd: Word)
      reads this`aboveVtom, heap`first, heap`count, heap.additional
    {
      match p
      case Platform(heapStart, vtom, pageSize, memoryMap) =>
        && p.Valid() && heap.Valid() && heap.pageSize == pageSize && n <= |memoryMap|
        && (vtom != 0 ==> heapStart < vtom && IsAligned(vtom, pageSize))
        && EntriesOk(p, n) && MapRecorded(p, n)
        && firstEntry == (n == 0) && firstVtomEntry == NoneAbove(p, n)
        && lastEntryEnd == if n == 0 then 0 else memoryMap[n - 1].End()
    }

    lemma NothingScanned(p: Platform)
      requires p.Valid() && heap.Valid() && heap.pageSize == p.pageSize
      requires heap.first == Span(0, 0) && heap.count == 0 && aboveVtom == Span(0, 0)
      requires p.vtom != 0 ==> p.heapStart < p.vtom && IsAligned(p.vtom, p.pageSize)
      ensures Scanned(p, 0, true, true, 0)
    {
    }

    lemma AllScanned(p: Platform, n: nat, firstEntry: bool, firstVtomEntry: bool, lastEntryEnd: Word)
      requires Scanned(p, n, firstEntry, firstVtomEntry, lastEntryEnd) && n == |p.memoryMap|
      ensures heap.Valid() && EntriesOk(p, |p.memoryMap|) && MapRecorded(p, |p.memoryMap|)
    {
    }

    /** One round of the loop over the memory map. */
    method ScanEntry(p: Platform, loaderMap: seq<MapEntry>, i: nat,
                     firstEntry: bool, firstVtomEntry: bool, lastEntryEnd: Word)
      returns (outcome: Outcome, firstEntry': bool, firstVtomEntry': bool, lastEntryEnd': Word)
      requires Scanned(p, i, firstEntry, firstVtomEntry, lastEntryEnd)
      requires i < |loaderMap| && i < |p.memoryMap| && p.memoryMap[i] == RegionOf(loaderMap[i])
      modifies this`aboveVtom, heap, heap.additional
      ensures heap.Valid()
      ensures outcome == Done <==> EntryOk(p, i)
      ensures outcome == Done ==> Scanned(p, i + 1, firstEntry', firstVtomEntry', lastEntryEnd')
    {
      var entryAddress, entrySize, entryEnd, skip;
      firstEntry', firstVtomEntry' := firstEntry, firstVtomEntry;
      outcome, entryAddress, entrySize, entryEnd := ValidateEntry(p, loaderMap[i], i, firstEntry, lastEntryEnd);
      lastEntryEnd' := entryEnd;
      if outcome == Abort { return; }
      skip, firstVtomEntry', entrySize, entryEnd := Carve(p, i, firstVtomEntry, entrySize, entryEnd);
      if skip {
        SkippedPiece(p, i);
        OneMorePiece(p, i);
      } else {
        outcome := Record(p, i, firstEntry, entryAddress, entrySize, entryEnd);
        if entrySize != 0 { firstEntry' := false; } else { EmptyPiece(p, i); }
      }
    }

    /** The loop over the memory map. */
    method ScanMap(p: Platform, loaderMap: seq<MapEntry>) returns (outcome: Outcome)
      requires p.Valid() && p.memoryMap == Regions(loaderMap)
      requires heap.Valid() && heap.pageSize == p.pageSize
      requires heap.first == Span(0, 0) && heap.count == 0 && aboveVtom == Span(0, 0)
      requires p.vtom != 0 ==> p.heapStart < p.vtom && IsAligned(p.vtom, p.pageSize)
      modifies this`aboveVtom, heap, heap.additional
      ensures heap.Valid()
      ensures outcome == Done <==> EntriesOk(p, |p.memoryMap|)
      ensures outcome == Done ==> MapRecorded(p, |p.memoryMap|)
    {
      var firstEntry, firstVtomEntry := true, true;
      var lastEntryEnd: Word := 0;
      var i := 0;
      NothingScanned(p);
      while i < |loaderMap| && !loaderMap[i].IsNull()
        invariant Scanned(p, i, firstEntry, firstVtomEntry, lastEntryEnd)
      {
        RegionAt(loaderMap, i);
        outcome, firstEntry, firstVtomEntry, lastEntryEnd :=
          ScanEntry(p, loaderMap, i, firstEntry, firstVtomEntry, lastEntryEnd);
        if outcome == Abort {
          NotAllOk(p, i);
          return;
        }
        i := i + 1;
      }
      RegionAt(loaderMap, i);
      AllScanned(p, i, firstEntry, firstVtomEntry, lastEntryEnd);
      return Done;
    }

    method SetupHeap(p: Platform, loaderMap: seq<MapEntry>) returns (outcome: Outcome)
      requires p.Valid() && p.memoryMap == Regions(loaderMap)
      requires heap.Valid() && heap.pageSize == p.pageSize
      requires heap.first == Span(0, 0) && heap.count == 0 && aboveVtom == Span(0, 0)
      modifies this, heap, heap.additional
      ensures heap.Valid()
      ensures outcome == Done <==> Acceptable(p)
      ensures outcome == Done ==> RangesRecorded(p, |p.memoryMap|) && IsAbove(p, |p.memoryMap|, aboveVtom)
      ensures outcome == Done ==> accepted == old(accepted) + Blocks(HeapAcceptance(p))
    {
      if p.vtom != 0 && (p.heapStart >= p.vtom || !IsAligned(p.vtom, p.pageSize)) { return Abort; }
      outcome := ScanMap(p, loaderMap);
      if outcome == Abort { return; }
      if p.vtom != 0 && aboveVtom.size == 0 { return Abort; }
      AcceptHeap(p);
    }

    /** All from the first page of the heap to the end of its last range. */
    method AcceptHeap(p: Platform)
      requires p.Valid() && EntriesOk(p, |p.memoryMap|) && heap.Valid() && RangesRecorded(p, |p.memoryMap|)
      modifies this`accepted
      ensures accepted == old(accepted) + Blocks(HeapAcceptance(p))
    {
      HeapAcceptanceIs(p);
      assert Wrap(heap.LargestValidAddress() + 1) == HeapEnd(p);
      var heapRange := Between(p.heapStart, Wrap(heap.LargestValidAddress() + 1));
      AcceptPrivateMemory(heapRange.AlignUpStart(p.pageSize));
    }
  }

  // --- The layout of the heap ------------------------------------------------------

  predicate InEntry(r: AddressRange, e: Region) {
    e.start <= r.start && r.end <= e.End()
  }

  /** Range k is not empty, page aligned but for the very first start, above range k - 1 and inside a map entry. */
  ghost predicate RangeOk(p: Platform, n: nat, rs: seq<AddressRange>, k: nat)
    requires k < |rs| && n <= |p.memoryMap|
  {
    && rs[k].start < rs[k].end && IsAligned(rs[k].end, p.pageSize)
    && (if k == 0 then rs[k].start == p.heapStart
        else IsAligned(rs[k].start, p.pageSize) && rs[k - 1].end <= rs[k].start)
    && (p.vtom != 0 ==> rs[k].end <= p.vtom)
    && exists i: nat :: i < n && InEntry(rs[k], p.memoryMap[i])
  }

  ghost predicate LayoutOk(p: Platform, n: nat, rs: seq<AddressRange>)
    requires n <= |p.memoryMap|
  {
    forall k: nat {:trigger RangeOk(p, n, rs, k)} :: k < |rs| ==> RangeOk(p, n, rs, k)
  }

  predicate EndsBy(rs: seq<AddressRange>, limit: nat) {
    rs != [] && rs[|rs| - 1].end <= limit
  }

  lemma PieceFits(p: Platform, i: nat)
    requires p.Valid() && i < |p.memoryMap| && EntryOk(p, i)
    ensures |PieceOf(p, i)| <= 1 && (i == 0 ==> |PieceOf(p, i)| == 1)
    ensures forall r :: r in PieceOf(p, i) ==>
              && r.start < r.end && IsAligned(r.end, p.pageSize)
              && (if i == 0 then r.start == p.heapStart else IsAligned(r.start, p.pageSize))
              && (p.vtom != 0 ==> r.end <= p.vtom) && InEntry(r, p.memoryMap[i])
  {
  }

  /** The heap of every accepted map: see RangeOk.  At most 32 ranges, so the table never overflows. */
  lemma {:induction false} HeapLayout(p: Platform, n: nat)
    requires p.Valid() && n <= |p.memoryMap| && EntriesOk(p, n)
    ensures LayoutOk(p, n, Pieces(p, n)) && |Pieces(p, n)| <= n
    ensures n > 0 ==> EndsBy(Pieces(p, n), p.memoryMap[n - 1].End())
  {
    if n > 0 {
      HeapLayout(p, n - 1);
      assert EntryOk(p, n - 1);
      var before, piece := Pieces(p, n - 1), PieceOf(p, n - 1);
      assert Pieces(p, n) == before + piece;
      RangeAdded(p, n - 1, before);
      LayoutExtends(p, n - 1, before, piece);
    }
  }

  lemma LayoutExtends(p: Platform, n: nat, before: seq<AddressRange>, piece: seq<AddressRange>)
    requires n < |p.memoryMap| && LayoutOk(p, n, before) && |piece| <= 1
    requires piece != [] ==> RangeOk(p, n + 1, before + piece, |before|)
    ensures LayoutOk(p, n + 1, before + piece)
  {
    var rs, n' := before + piece, n + 1;
    forall k: nat | k < |rs| ensures RangeOk(p, n', rs, k) {
      if k < |before| {
        assert RangeOk(p, n, before, k);
        RangeStays(p, n, before, rs, k);
      }
    }
  }

  lemma RangeStays(p: Platform, n: nat, before: seq<AddressRange>, rs: seq<AddressRange>, k: nat)
    requires n < |p.memoryMap| && k < |before| && before <= rs && RangeOk(p, n, before, k)
    ensures RangeOk(p, n + 1, rs, k)
  {
    var i: nat :| i < n && InEntry(before[k], p.memoryMap[i]);
    assert InEntry(rs[k], p.memoryMap[i]);
  }

  lemma RangeAdded(p: Platform, n: nat, before: seq<AddressRange>)
    requires p.Valid() && n < |p.memoryMap| && EntryOk(p, n)
    requires if n == 0 then before == [] else EndsBy(before, p.memoryMap[n - 1].End())
    ensures |PieceOf(p, n)| <= 1
    ensures PieceOf(p, n) != [] ==> RangeOk(p, n + 1, before + PieceOf(p, n), |before|)
    ensures EndsBy(before + PieceOf(p, n), p.memoryMap[n].End())
  {
    PieceFits(p, n);
    if PieceOf(p, n) != [] {
      var r := PieceOf(p, n)[0];
      assert r in PieceOf(p, n) && (before + PieceOf(p, n))[|before|] == r;
      assert InEntry(r, p.memoryMap[n]);
    }
  }

  /** One past the largest valid address, 0 without ranges. */
  ghost function HeapEnd(p: Platform): Word
    requires p.Valid() && EntriesOk(p, |p.memoryMap|)
  {
    var pieces := Pieces(p, |p.memoryMap|);
    if pieces == [] then 0 else pieces[|pieces| - 1].end
  }

  /** From the first page boundary of the heap to the end of its last range. */
  ghost function HeapAcceptance(p: Platform): AddressRange
    requires p.Valid() && EntriesOk(p, |p.memoryMap|)
  {
    Between(AlignUp(p.heapStart, p.pageSize), HeapEnd(p))
  }

  lemma HeapEndIs(p: Platform)
    requires p.Valid() && EntriesOk(p, |p.memoryMap|)
    ensures IsAligned(HeapEnd(p), p.pageSize)
    ensures |p.memoryMap| > 0 ==> Pieces(p, |p.memoryMap|) != [] && HeapEnd(p) > p.heapStart
  {
    HeapLayout(p, |p.memoryMap|);
    var pieces := Pieces(p, |p.memoryMap|);
    if |p.memoryMap| > 0 {
      assert RangeOk(p, |p.memoryMap|, pieces, |pieces| - 1);
      StartsAbove(p, |p.memoryMap|, pieces, |pieces| - 1);
    }
  }

  lemma {:induction false} StartsAbove(p: Platform, n: nat, rs: seq<AddressRange>, k: nat)
    requires n <= |p.memoryMap| && LayoutOk(p, n, rs) && k < |rs|
    ensures p.heapStart <= rs[k].start
  {
    assert RangeOk(p, n, rs, k);
    if k > 0 {
      StartsAbove(p, n, rs, k - 1);
      assert RangeOk(p, n, rs, k - 1);
    }
  }

  lemma HeapAcceptanceIs(p: Platform)
    requires p.Valid() && EntriesOk(p, |p.memoryMap|)
    ensures Between(p.heapStart, HeapEnd(p)).AlignUpStart(p.pageSize) == HeapAcceptance(p)
    ensures IsAlignedBlock(HeapAcceptance(p)) && HeapAcceptance(p).end + 0x1000 <= WORD
    ensures |p.memoryMap| > 0 ==> Pieces(p, |p.memoryMap|) != [] && HeapEnd(p) > p.heapStart
  {
    HeapEndIs(p);
    AlignedStart(p.heapStart, HeapEnd(p), p.pageSize);
    EndFits(HeapAcceptance(p).end);
  }

  lemma EndFits(end: Word)
    requires IsAligned(end, 0x1000)
    ensures end + 0x1000 <= WORD
  {
  }

  lemma AlignedStart(start: Word, end: Word, pageSize: Alignment)
    requires start < ADDRESS_LIMIT && IsAligned(end, pageSize)
    ensures Between(start, end).AlignUpStart(pageSize) == Between(AlignUp(start, pageSize), end)
    ensures IsAlignedBlock(Between(AlignUp(start, pageSize), end))
  {
    var up := AlignUp(start, pageSize);
    assert start <= up;
    AlignedToSmall(up, pageSize);
    AlignedToSmall(end, pageSize);
  }

  lemma OneMorePiece(p: Platform, i: nat)
    requires i < |p.memoryMap| && EntriesOk(p, i) && EntryOk(p, i)
    ensures EntriesOk(p, i + 1) && Pieces(p, i + 1) == Pieces(p, i) + PieceOf(p, i)
  {
  }
}
