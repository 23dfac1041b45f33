/**
Memory shared with the host: allocate_visible_sev_vtom and update_state_for_range
(guest-verona-rt/arch/x86_64/hv_sev.cc).  The memory above the virtual top of memory is
switched to shared one PAGE_SIZE at a time, and allocations are cut off the front of
what has been switched.
*/
module VisibleMemory {
  import opened Common
  import opened Words
  import opened AddressRanges
  import opened Sequences
  import opened SevHeap

  /** The hypervisor frames of a range, in order. */
  function Frames(start: nat, end: nat): (frames: seq<nat>)
    requires start <= end
    ensures |frames| == end / 0x1000 - start / 0x1000
    ensures forall i :: 0 <= i < |frames| ==> frames[i] == start / 0x1000 + i
  {
    seq(end / 0x1000 - start / 0x1000, i => start / 0x1000 + i)
  }

  lemma FramesAre(start: nat, end: nat, frame: nat)
    requires start <= end && IsAligned(start, HV_PAGE_SIZE) && IsAligned(end, HV_PAGE_SIZE)
    ensures frame in Frames(start, end) <==> start <= frame * 0x1000 < end
  {
    if start <= frame * 0x1000 < end {
      assert Frames(start, end)[frame - start / 0x1000] == frame;
    }
  }

  lemma FramesJoin(start: nat, middle: nat, end: nat)
    requires start <= middle <= end
    ensures Frames(start, end) == Frames(start, middle) + Frames(middle, end)
  {
  }

  /** The free span ends where the expansion stopped, at a whole number of pages above the virtual top. */
  predicate SpansOk(above: Span, pageSize: Alignment, available: Span, offset: Word) {
    && above.base + above.size <= ADDRESS_LIMIT && IsAligned(above.base, pageSize)
    && (above.size > 0 ==> above.base > 0)
    && offset <= above.size && IsAligned(offset, pageSize)
    && (offset == 0 ==> available == Span(0, 0))
    && (offset > 0 ==> above.base <= available.base && available.base + available.size == above.base + offset)
    && IsAligned(available.base, HV_PAGE_SIZE)
  }

  /** How far into the memory above the virtual top the free span starts. */
  function UsedOf(above: Span, available: Span, offset: Word): int {
    if offset == 0 then 0 else available.base - above.base
  }

  lemma ExpandedSpans(above: Span, pageSize: Alignment, available: Span, offset: Word, available': Span, offset': Word)
    requires SpansOk(above, pageSize, available, offset) && offset + pageSize <= above.size
    requires available'.base == if available.base == 0 then above.base + offset else available.base
    requires available'.size == available.size + pageSize && offset' == offset + pageSize
    ensures SpansOk(above, pageSize, available', offset')
    ensures UsedOf(above, available', offset') == UsedOf(above, available, offset)
  {
    SumAligned(offset, pageSize, pageSize);
    SumAligned(above.base, offset, pageSize);
    AlignedToSmall(above.base + offset, pageSize);
  }

  class Pool {
    const above: Span
    const pageSize: Alignment
    var available: Span
    var offset: Word
    /** The frames switched to shared so far, in order. */
    var shared: seq<nat>

    ghost function Used(): int
      reads this`available, this`offset
    {
      UsedOf(above, available, offset)
    }

    ghost predicate Valid()
      reads this`available, this`offset, this`shared
    {
      && SpansOk(above, pageSize, available, offset)
      && shared == Frames(above.base, above.base + offset)
    }

    constructor (above: Span, pageSize: Alignment)
      requires above.base + above.size <= ADDRESS_LIMIT && IsAligned(above.base, pageSize)
      requires above.size > 0 ==> above.base > 0
      ensures Valid() && this.above == above && this.pageSize == pageSize && Used() == 0 && offset == 0
    {
      this.above, this.pageSize := above, pageSize;
      available, offset, shared := Span(0, 0), 0, [];
    }

    /** hostConfirms is whether the hypervisor reports success for the requested changes. */
    method UpdateState(start: Word, end: Word, hostConfirms: bool) returns (outcome: Outcome)
      requires start <= end
      modifies this`shared
      ensures outcome == Done <==> hostConfirms || Frames(start, end) == []
      ensures outcome == Done ==> shared == old(shared) + Frames(start, end)
    {
      var frame, last := start / 0x1000, end / 0x1000;
      ghost var k := 0;
      while frame < last
        invariant k <= |Frames(start, end)| && frame == start / 0x1000 + k
        invariant shared == old(shared) + Frames(start, end)[..k]
        invariant k > 0 ==> hostConfirms
      {
        if !hostConfirms { return Abort; }
        shared := shared + [frame];
        frame, k := frame + 1, k + 1;
      }
      assert Frames(start, end)[..k] == Frames(start, end);
      return Done;
    }

    /** Switches one more PAGE_SIZE to shared. */
    method Expand(hostConfirms: bool) returns (outcome: Outcome)
      requires Valid()
      modifies this
      ensures outcome == Done <==> old(offset) + pageSize <= above.size && hostConfirms
      ensures outcome == Done ==> Valid() && offset == old(offset) + pageSize && Used() == old(Used())
    {
      if offset + pageSize > above.size { return Abort; }
      var extra := Span(above.base + offset, pageSize);
      offset := offset + extra.size;
      outcome := UpdateState(extra.base, extra.base + extra.size, hostConfirms);
      if outcome == Abort { return; }
      var availableStart := available.base;
      if availableStart == 0 { availableStart := extra.base; }
      available := Span(availableStart, available.size + extra.size);
      ExpandedSpans(above, pageSize, old(available), old(offset), available, offset);
      FramesJoin(above.base, above.base + old(offset), above.base + offset);
    }

    /** Expands until the free span holds what is asked for. */
    method Grow(rounded: Word, hostConfirms: bool) returns (outcome: Outcome)
      requires Valid()
      modifies this
      ensures outcome == Done <==> CanGrow(above, pageSize, old(offset), old(Used()) + rounded, hostConfirms)
      ensures outcome == Done ==> Valid() && Used() == old(Used()) && available.size >= rounded
      ensures outcome == Done ==> offset == Expanded(old(offset), old(Used()) + rounded, pageSize)
    {
      ghost var need := Used() + rounded;
      while available.size < rounded
        invariant Valid() && Used() == old(Used()) && old(offset) <= offset
        invariant offset > old(offset) ==> old(offset) < need && offset < need + pageSize && hostConfirms
        decreases above.size - offset
      {
        CannotGrow(above, pageSize, offset, need);
        outcome := Expand(hostConfirms);
        if outcome == Abort { return; }
      }
      Grown(above, pageSize, old(offset), offset, need);
      return Done;
    }

    method Allocate(size: Word, hostConfirms: bool) returns (outcome: Outcome, address: Word)
      requires Valid()
      modifies this
      ensures outcome == Done <==>
              CanGrow(above, pageSize, old(offset), old(Used()) + AlignUp(size, HV_PAGE_SIZE), hostConfirms)
      ensures outcome == Done ==> Valid() && Used() == old(Used()) + AlignUp(size, HV_PAGE_SIZE)
      ensures outcome == Done ==> offset == Expanded(old(offset), Used(), pageSize)
      ensures outcome == Done && offset > 0 ==> address == above.base + old(Used())
    {
      var rounded := AlignUp(size, HV_PAGE_SIZE);
      outcome := Grow(rounded, hostConfirms);
      address := available.base;
      if outcome == Abort { return; }
      CutSpans(above, pageSize, available, offset, rounded);
      available := Span(available.base + rounded, available.size - rounded);
    }
  }

  /** The least offset in whole pages that covers what is needed. */
  function Expanded(offset: Word, need: int, pageSize: Alignment): (r: Word)
    requires need < ADDRESS_LIMIT
    ensures r >= offset && r >= need
  {
    if need <= offset then offset else AlignUp(need, pageSize)
  }

  /** There are enough whole pages, and the hypervisor agrees if some of them are not shared yet. */
  predicate CanGrow(above: Span, pageSize: Alignment, offset: Word, need: int, hostConfirms: bool) {
    need <= AlignDown(above.size, pageSize) && need < ADDRESS_LIMIT && (need > offset ==> hostConfirms)
  }

  /** When one more page is needed and there is none, the request cannot be met. */
  lemma CannotGrow(above: Span, pageSize: Alignment, offset: Word, need: int)
    requires IsAligned(offset, pageSize) && offset < need
    ensures offset + pageSize > above.size ==> need > AlignDown(above.size, pageSize)
  {
    if offset < AlignDown(above.size, pageSize) {
      AlignedApart(offset, AlignDown(above.size, pageSize), pageSize);
    }
  }

  lemma Grown(above: Span, pageSize: Alignment, first: Word, offset: Word, need: int)
    requires IsAligned(offset, pageSize) && first <= offset <= above.size && need <= offset
    requires above.base + above.size <= ADDRESS_LIMIT && (above.size > 0 ==> above.base > 0)
    requires offset > first ==> first < need && offset < need + pageSize
    ensures need < ADDRESS_LIMIT && offset == Expanded(first, need, pageSize)
    ensures need <= AlignDown(above.size, pageSize)
  {
    DownIsGreatest(above.size, pageSize, offset);
    if need > first {
      var up := AlignUp(need, pageSize);
      UpIsLeast(need, pageSize, offset);
      if up < offset { AlignedApart(up, offset, pageSize); }
    }
  }

  /** An allocation takes the front of the free span. */
  lemma CutSpans(above: Span, pageSize: Alignment, available: Span, offset: Word, rounded: Word)
    requires SpansOk(above, pageSize, available, offset) && rounded <= available.size
    requires IsAligned(rounded, HV_PAGE_SIZE)
    ensures available.base + rounded < WORD
    ensures SpansOk(above, pageSize, Span(available.base + rounded, available.size - rounded), offset)
  {
    SumAligned(available.base, rounded, HV_PAGE_SIZE);
  }

  // --- Runs of requests ------------------------------------------------------------

  /** A request rounds up to a block that holds it exactly when the rounding does not wrap. */
  lemma RoundingHoldsRequest(size: Word)
    ensures AlignUp(size, HV_PAGE_SIZE) >= size <==> size <= WORD - 0x1000
    ensures size > WORD - 0x1000 ==> AlignUp(size, HV_PAGE_SIZE) == 0
  {
  }

  /** Block k is page aligned, holds its request, follows block k - 1 and lies in what has been switched. */
  predicate AllocationOk(above: Span, offset: Word, start: int, sizes: seq<Word>, blocks: seq<AddressRange>, k: nat)
    requires k < |blocks| <= |sizes|
  {
    var b := blocks[k];
    && IsAligned(b.start, HV_PAGE_SIZE) && IsAligned(b.end, HV_PAGE_SIZE)
    && b.start < b.end && b.start + sizes[k] <= b.end
    && b.start == (if k == 0 then start else blocks[k - 1].end)
    && above.base <= b.start && b.end <= above.base + offset
  }

  predicate AllocationsOk(above: Span, offset: Word, start: int, sizes: seq<Word>, blocks: seq<AddressRange>)
    requires |blocks| <= |sizes|
  {
    forall k: nat {:trigger AllocationOk(above, offset, start, sizes, blocks, k)} :: k < |blocks| ==>
      AllocationOk(above, offset, start, sizes, blocks, k)
  }

  lemma OneMoreBlock(above: Span, offset: Word, offset': Word, start: int, sizes: seq<Word>,
                     blocks: seq<AddressRange>, b: AddressRange)
    requires |blocks| < |sizes| && AllocationsOk(above, offset, start, sizes, blocks) && offset <= offset'
    requires AllocationOk(above, offset', start, sizes, blocks + [b], |blocks|)
    ensures AllocationsOk(above, offset', start, sizes, blocks + [b])
  {
    var blocks' := blocks + [b];
    forall k: nat | k < |blocks'| ensures AllocationOk(above, offset', start, sizes, blocks', k) {
      if k < |blocks| { assert AllocationOk(above, offset, start, sizes, blocks, k); }
    }
  }

  /** What the first k requests take, in whole HV pages. */
  function Taken(sizes: seq<Word>, k: nat): nat
    requires k <= |sizes|
  {
    if k == 0 then 0 else Taken(sizes, k - 1) + AlignUp(sizes[k - 1], HV_PAGE_SIZE)
  }

  /**
  Request k can be met: the pages above the virtual top hold it together with all before it, and the
  hypervisor agrees if it needs more of them than those before it have switched.
  */
  predicate RequestOk(above: Span, pageSize: Alignment, offset: Word, used: int,
                      sizes: seq<Word>, hostConfirms: seq<bool>, k: nat)
    requires k < |sizes| == |hostConfirms|
  {
    var need, before := used + Taken(sizes, k + 1), used + Taken(sizes, k);
    need < ADDRESS_LIMIT && CanGrow(above, pageSize, Expanded(offset, before, pageSize), need, hostConfirms[k])
  }

  /** Switching pages in two goes switches as many as in one. */
  lemma ExpandedTwice(offset: Word, need: int, need': int, pageSize: Alignment)
    requires need <= need' < ADDRESS_LIMIT && 0 <= need
    ensures Expanded(Expanded(offset, need, pageSize), need', pageSize) == Expanded(offset, need', pageSize)
  {
    if offset < need && need' <= AlignUp(need, pageSize) {
      UpIsLeast(need', pageSize, AlignUp(need, pageSize));
      UpIsLeast(need, pageSize, AlignUp(need', pageSize));
    }
  }

  lemma BlockOk(above: Span, pageSize: Alignment, available: Span, offset: Word, b: AddressRange, start: int)
    requires SpansOk(above, pageSize, available, offset) && offset > 0
    requires b.start == start && b.start < b.end == above.base + UsedOf(above, available, offset)
    requires IsAligned(b.end - b.start, HV_PAGE_SIZE)
    ensures IsAligned(b.start, HV_PAGE_SIZE) && IsAligned(b.end, HV_PAGE_SIZE)
    ensures b.end <= above.base + offset
  {
  }

  predicate RequestsOk(above: Span, pageSize: Alignment, offset: Word, used: int,
                       sizes: seq<Word>, hostConfirms: seq<bool>, n: nat)
    requires n <= |sizes| == |hostConfirms|
  {
    forall k: nat {:trigger RequestOk(above, pageSize, offset, used, sizes, hostConfirms, k)} :: k < n ==>
      RequestOk(above, pageSize, offset, used, sizes, hostConfirms, k)
  }

  /** After n requests of a run that began with first and used: where offset and used' are, and the blocks. */
  predicate Progress(above: Span, pageSize: Alignment, first: Word, used: int, sizes: seq<Word>,
                     hostConfirms: seq<bool>, n: nat, offset: Word, used': int, blocks: seq<AddressRange>)
  {
    && n == |blocks| <= |sizes| == |hostConfirms|
    && above.base + used' == (if n == 0 then above.base + used else blocks[n - 1].end)
    && AllocationsOk(above, offset, above.base + used, sizes, blocks)
    && used' == used + Taken(sizes, n) < ADDRESS_LIMIT
    && offset == Expanded(first, used', pageSize)
    && RequestsOk(above, pageSize, first, used, sizes, hostConfirms, n)
  }

  /** With a hypervisor that always agrees, a run succeeds iff what it takes in all fits the whole pages. */
  lemma {:induction false} FitsIff(above: Span, pageSize: Alignment, offset: Word, used: int,
                                   sizes: seq<Word>, hostConfirms: seq<bool>, n: nat)
    requires n <= |sizes| == |hostConfirms| && forall k :: 0 <= k < |hostConfirms| ==> hostConfirms[k]
    requires above.size <= ADDRESS_LIMIT - 1 && used <= AlignDown(above.size, pageSize)
    ensures RequestsOk(above, pageSize, offset, used, sizes, hostConfirms, n) <==>
            used + Taken(sizes, n) <= AlignDown(above.size, pageSize)
  {
    if n > 0 {
      FitsIff(above, pageSize, offset, used, sizes, hostConfirms, n - 1);
      FitsNext(above, pageSize, offset, used, sizes, hostConfirms, n - 1);
      RequestsSplit(above, pageSize, offset, used, sizes, hostConfirms, n - 1);
    }
  }

  lemma RequestsSplit(above: Span, pageSize: Alignment, offset: Word, used: int,
                      sizes: seq<Word>, hostConfirms: seq<bool>, n: nat)
    requires n < |sizes| == |hostConfirms|
    ensures RequestsOk(above, pageSize, offset, used, sizes, hostConfirms, n + 1) <==>
            && RequestsOk(above, pageSize, offset, used, sizes, hostConfirms, n)
            && RequestOk(above, pageSize, offset, used, sizes, hostConfirms, n)
  {
    assert RequestsOk(above, pageSize, offset, used, sizes, hostConfirms, n + 1) ==>
           RequestOk(above, pageSize, offset, used, sizes, hostConfirms, n);
  }

  lemma FitsNext(above: Span, pageSize: Alignment, offset: Word, used: int,
                 sizes: seq<Word>, hostConfirms: seq<bool>, n: nat)
    requires n < |sizes| == |hostConfirms| && hostConfirms[n] && above.size < ADDRESS_LIMIT
    ensures RequestOk(above, pageSize, offset, used, sizes, hostConfirms, n) <==>
            used + Taken(sizes, n + 1) <= AlignDown(above.size, pageSize)
  {
  }

  lemma ProgressNext(above: Span, pageSize: Alignment, first: Word, used: int, sizes: seq<Word>,
                     hostConfirms: seq<bool>, n: nat, offset: Word, used': int, blocks: seq<AddressRange>,
                     available: Span, offset': Word, used'': int, b: AddressRange)
    requires Progress(above, pageSize, first, used, sizes, hostConfirms, n, offset, used', blocks) && n < |sizes|
    requires 0 < sizes[n] <= WORD - 0x1000 && 0 <= used'
    requires used'' == used' + AlignUp(sizes[n], HV_PAGE_SIZE)
    requires CanGrow(above, pageSize, offset, used'', hostConfirms[n])
    requires SpansOk(above, pageSize, available, offset') && used'' == UsedOf(above, available, offset')
    requires offset' == Expanded(offset, used'', pageSize)
    requires b.start == above.base + used' && b.end == above.base + used''
    ensures Progress(above, pageSize, first, used, sizes, hostConfirms, n + 1, offset', used'', blocks + [b])
  {
    RoundingHoldsRequest(sizes[n]);
    assert RequestOk(above, pageSize, first, used, sizes, hostConfirms, n);
    ExpandedTwice(first, used', used'', pageSize);
    BlockOk(above, pageSize, available, offset', b, b.start);
    OneMoreBlock(above, offset, offset', above.base + used, sizes, blocks, b);
  }

  lemma ProgressStops(above: Span, pageSize: Alignment, first: Word, used: int, sizes: seq<Word>,
                      hostConfirms: seq<bool>, n: nat, offset: Word, used': int, blocks: seq<AddressRange>)
    requires Progress(above, pageSize, first, used, sizes, hostConfirms, n, offset, used', blocks) && n < |sizes|
    requires !CanGrow(above, pageSize, offset, used' + AlignUp(sizes[n], HV_PAGE_SIZE), hostConfirms[n])
    ensures !RequestsOk(above, pageSize, first, used, sizes, hostConfirms, |sizes|)
  {
    assert used + Taken(sizes, n + 1) == used' + AlignUp(sizes[n], HV_PAGE_SIZE);
    assert Expanded(first, used + Taken(sizes, n), pageSize) == offset;
    assert !RequestOk(above, pageSize, first, used, sizes, hostConfirms, n);
  }

  /** The next request of a run; a failure ends the run. */
  method AllocateNext(pool: Pool, sizes: seq<Word>, hostConfirms: seq<bool>, i: nat,
                      ghost first: Word, ghost used: int, ghost blocks: seq<AddressRange>)
    returns (outcome: Outcome, b: AddressRange)
    requires pool.Valid() && i < |sizes| && 0 < sizes[i] <= WORD - 0x1000
    requires Progress(pool.above, pool.pageSize, first, used, sizes, hostConfirms,
                      i, pool.offset, pool.Used(), blocks)
    modifies pool
    ensures outcome == Done ==> pool.Valid()
    ensures outcome == Done ==>
              Progress(pool.above, pool.pageSize, first, used, sizes, hostConfirms,
                       i + 1, pool.offset, pool.Used(), blocks + [b])
    ensures outcome == Abort ==> !RequestsOk(pool.above, pool.pageSize, first, used, sizes, hostConfirms, |sizes|)
  {
    ghost var offset, before := pool.offset, pool.Used();
    RoundingHoldsRequest(sizes[i]);
    var address;
    outcome, address := pool.Allocate(sizes[i], hostConfirms[i]);
    b := AddressRange(address, Wrap(address + AlignUp(sizes[i], HV_PAGE_SIZE)));
    if outcome == Abort {
      ProgressStops(pool.above, pool.pageSize, first, used, sizes, hostConfirms, i, offset, before, blocks);
    } else {
      ProgressNext(pool.above, pool.pageSize, first, used, sizes, hostConfirms, i, offset, before, blocks,
                   pool.available, pool.offset, pool.Used(), b);
    }
  }

  /**
  A run of requests, with the hypervisor's answer for each, succeeds exactly when each of them can be
  met.  It then hands out page-aligned blocks, each starting where the last one ended, from memory
  above the virtual top that has been switched to shared, and no page more than needed is switched.
  */
  method AllocateAll(pool: Pool, sizes: seq<Word>, hostConfirms: seq<bool>)
    returns (outcome: Outcome, blocks: seq<AddressRange>)
    requires pool.Valid() && |hostConfirms| == |sizes|
    requires forall k :: 0 <= k < |sizes| ==> 0 < sizes[k] <= WORD - 0x1000
    modifies pool
    ensures outcome == Done <==>
              RequestsOk(pool.above, pool.pageSize, old(pool.offset), old(pool.Used()), sizes, hostConfirms, |sizes|)
    ensures outcome == Done ==> pool.Valid()
    ensures outcome == Done ==>
              Progress(pool.above, pool.pageSize, old(pool.offset), old(pool.Used()), sizes, hostConfirms,
                       |sizes|, pool.offset, pool.Used(), blocks)
  {
    blocks := [];
    ghost var used, first := pool.Used(), pool.offset;
    for i := 0 to |sizes|
      invariant pool.Valid()
      invariant Progress(pool.above, pool.pageSize, first, used, sizes, hostConfirms,
                         i, pool.offset, pool.Used(), blocks)
    {
      var b;
      outcome, b := AllocateNext(pool, sizes, hostConfirms, i, first, used, blocks);
      if outcome == Abort { return; }
      blocks := blocks + [b];
    }
    outcome := Done;
  }

  /** Disjointness: each block ends before any later one starts. */
  lemma {:induction false} BlocksDisjoint(above: Span, offset: Word, start: int, sizes: seq<Word>,
                                          blocks: seq<AddressRange>, j: nat, k: nat)
    requires j < k < |blocks| <= |sizes| && AllocationsOk(above, offset, start, sizes, blocks)
    ensures blocks[j].end <= blocks[k].start
  {
    assert AllocationOk(above, offset, start, sizes, blocks, k);
    if j < k - 1 {
      assert AllocationOk(above, offset, start, sizes, blocks, k - 1);
      BlocksDisjoint(above, offset, start, sizes, blocks, j, k - 1);
    }
  }

  /** Every frame of a block has been switched to shared, and none has been switched twice. */
  lemma BlocksAreShared(above: Span, pageSize: Alignment, offset: Word, start: int, sizes: seq<Word>,
                        blocks: seq<AddressRange>, k: nat, frame: nat)
    requires IsAligned(above.base, pageSize) && IsAligned(offset, pageSize)
    requires k < |blocks| <= |sizes| && AllocationsOk(above, offset, start, sizes, blocks)
    requires blocks[k].start <= frame * 0x1000 < blocks[k].end
    ensures frame in Frames(above.base, above.base + offset)
    ensures NoDuplicates(Frames(above.base, above.base + offset))
  {
    assert AllocationOk(above, offset, start, sizes, blocks, k);
    AlignedToSmall(above.base, pageSize);
    SumAligned(above.base, offset, pageSize);
    AlignedToSmall(above.base + offset, pageSize);
    FramesAre(above.base, above.base + offset, frame);
  }
}
