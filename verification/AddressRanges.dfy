/** AddressRange (guest-verona-rt/include/public/address.h): half-open ranges of addresses. */
module AddressRanges {
  import opened Words

  /** A std::span<uint8_t>. */
  datatype Span = Span(base: Word, size: Word)

  datatype AddressRange = AddressRange(start: Word, end: Word) {
    predicate Overlaps(address: Word) {
      start <= address < end
    }

    predicate IsEmpty() {
      start == end
    }

    function Size(): Word {
      Wrap(end - start)
    }

    function AlignUpStart(alignment: Alignment): AddressRange
    {
      var aligned := AlignUp(start, alignment);
      if aligned >= end then Between(aligned, aligned) else Between(aligned, end)
    }

    function AlignUpEnd(alignment: Alignment): AddressRange
    {
      Between(start, AlignUp(end, alignment))
    }

    function AlignDownEnd(alignment: Alignment): AddressRange
    {
      var aligned := AlignDown(end, alignment);
      if aligned <= start then Between(aligned, aligned) else Between(start, aligned)
    }

    function AlignRestrict(alignment: Alignment): AddressRange
    {
      var alignedStart, alignedEnd := AlignUp(start, alignment), AlignDown(end, alignment);
      if alignedEnd <= alignedStart then Between(alignedStart, alignedStart) else Between(alignedStart, alignedEnd)
    }
  }

  predicate CheckValidSubrange(r: AddressRange, other: AddressRange) {
    r.start <= other.start < r.end && r.start < other.end < r.end && other.start < other.end
  }

  /** The two-address constructor: the end is at least the start. */
  function Between(start: Word, end: Word): AddressRange {
    AddressRange(start, if end > start then end else start)
  }

  /** The span constructor: the end wraps and may come out below the start. */
  function OfSpan(s: Span): AddressRange {
    AddressRange(s.base, Wrap(s.base + s.size))
  }

  /** The block of the alignment that holds the address lies within the range. */
  predicate HoldsBlock(r: AddressRange, address: Word, alignment: Alignment)
  {
    r.start <= AlignDown(address, alignment) && AlignDown(address, alignment) + alignment <= r.end
  }

  /** Restricting keeps exactly the addresses whose whole block is in the range, also when the range is inverted. */
  lemma RestrictKeepsWholeBlocks(r: AddressRange, address: Word, alignment: Alignment)
    requires r.start + alignment <= WORD
    ensures r.AlignRestrict(alignment).Overlaps(address) <==> HoldsBlock(r, address, alignment)
  {
    if HoldsBlock(r, address, alignment) {
      WholeBlockIsKept(r, address, alignment);
    } else if r.AlignRestrict(alignment).Overlaps(address) {
      KeptBlockIsWhole(r, address, alignment);
    }
  }

  lemma WholeBlockIsKept(r: AddressRange, address: Word, alignment: Alignment)
    requires r.start + alignment <= WORD && HoldsBlock(r, address, alignment)
    ensures AlignUp(r.start, alignment) <= address < AlignDown(r.end, alignment)
  {
    var block := AlignDown(address, alignment);
    UpIsLeast(r.start, alignment, block);
    DownIsGreatest(r.end, alignment, block + alignment);
  }

  lemma KeptBlockIsWhole(r: AddressRange, address: Word, alignment: Alignment)
    requires r.start + alignment <= WORD
    requires AlignUp(r.start, alignment) <= address < AlignDown(r.end, alignment)
    ensures HoldsBlock(r, address, alignment)
  {
    DownIsGreatest(address, alignment, AlignUp(r.start, alignment));
    AlignedApart(AlignDown(address, alignment), AlignDown(r.end, alignment), alignment);
  }

  /** Cutting the end down keeps exactly the addresses of the range whose block ends within it. */
  lemma DownEndKeepsBlocks(r: AddressRange, address: Word, alignment: Alignment)
    ensures r.AlignDownEnd(alignment).Overlaps(address) <==>
            r.start <= address && AlignDown(address, alignment) + alignment <= r.end
  {
    var block := AlignDown(address, alignment);
    var down := AlignDown(r.end, alignment);
    if block + alignment <= r.end {
      DownIsGreatest(r.end, alignment, block + alignment);
    } else if address < down {
      AlignedApart(block, down, alignment);
    }
  }
}
