/**
Memory shared between an enclave and its host: the host's bump allocator
(app-framework/include/host/enclave_platform.h) against the checks with which the guest
takes over what the host allocated (app-framework/include/guest/ringbuffer_guest.h).
*/
module SharedMemory {
  import opened Common
  import Arith
  import opened Words
  import opened AddressRanges

  const SHMEM_SIZE: Word := 0x400_0000
  const SHMEM_START: Word := 0x100_0000_0000 - 0x400_0000

  /** The shared range as the guest sees it. */
  const SHARED := Span(SHMEM_START, SHMEM_SIZE)

  // --- The guest's checks ----------------------------------------------------------

  /** validate_array: where the array lies in the shared range, or None for an exit. */
  function ValidateArray(shared: Span, address: Word, elementSize: Word, count: Word): Option<Word> {
    var range := Between(address, Wrap(address + Wrap(elementSize * count)));
    if CheckValidSubrange(OfSpan(shared), range) then Some(address - shared.base) else None
  }

  predicate InBounds(shared: Span, offset: Word, elementSize: Word, count: Word) {
    offset + elementSize * count < shared.size
  }

  lemma LargeElementsBreakOnlyByWrapping(elementSize: Word, count: Word)
    ensures elementSize == 1 ==> Wrap(elementSize * count) == elementSize * count
    ensures elementSize * count >= WORD ==> Wrap(elementSize * count) != elementSize * count
  {
  }

  /**
  An accepted array lies within the shared range exactly when its size in bytes does not wrap;
  for one-byte elements, the only arrays the guest takes over, it never does.
  */
  lemma AcceptedArrayIsInBounds(shared: Span, address: Word, elementSize: Word, count: Word)
    requires shared.base + shared.size < WORD
    requires ValidateArray(shared, address, elementSize, count).Some?
    ensures shared.base <= address
    ensures InBounds(shared, address - shared.base, elementSize, count) <==> elementSize * count < WORD
    ensures elementSize == 1 ==> InBounds(shared, address - shared.base, elementSize, count)
  {
    LargeElementsBreakOnlyByWrapping(elementSize, count);
  }

  /** Every non-empty array strictly inside the range is accepted, at its own offset. */
  lemma InBoundsArrayIsAccepted(shared: Span, address: Word, elementSize: Word, count: Word)
    requires shared.base + shared.size < WORD && shared.base <= address
    requires elementSize * count > 0 && InBounds(shared, address - shared.base, elementSize, count)
    ensures ValidateArray(shared, address, elementSize, count) == Some(address - shared.base)
  {
  }

  // --- The host's allocator --------------------------------------------------------

  /** The least multiple of the alignment that is not below the offset. */
  predicate IsRoundedUp(offset: nat, alignment: nat, r: nat)
    requires alignment > 0
  {
    offset <= r < offset + alignment && r % alignment == 0
  }

  function Rounded(offset: nat, alignment: nat): (r: nat)
    requires alignment > 0
    ensures IsRoundedUp(offset, alignment, r)
  {
    var x := offset + alignment - 1;
    var q := x / alignment;
    assert x == q * alignment + x % alignment;
    Arith.QuotientUnique(q * alignment, alignment, q, 0);
    q * alignment
  }

  lemma RoundedIsPositive(offset: nat, alignment: nat)
    requires alignment > 0 && offset > 0
    ensures Rounded(offset, alignment) >= alignment
  {
    var r := Rounded(offset, alignment);
    assert r == r / alignment * alignment;
    Arith.MulMonotone(1, r / alignment, alignment);
  }

  /** The allocator's rounding, in 64-bit arithmetic. */
  function Aligned(offset: Word, alignment: Word): (r: Word)
    requires alignment > 0
    ensures offset + alignment <= WORD ==> r == Rounded(offset, alignment)
    ensures offset + alignment > WORD ==> r == 0 && Rounded(offset, alignment) >= alignment
  {
    var x := Wrap(offset + alignment - 1);
    assert x == x / alignment * alignment + x % alignment;
    assert offset + alignment > WORD ==> x / alignment == 0 && Rounded(offset, alignment) >= alignment by {
      if offset + alignment > WORD {
        Arith.QuotientUnique(x, alignment, 0, x);
        RoundedIsPositive(offset, alignment);
      }
    }
    x / alignment * alignment
  }

  class Platform {
    var offset: Word

    ghost predicate Valid()
      reads this
    {
      offset < SHMEM_SIZE
    }

    /** Room for the initial arguments is taken first; they have to fit. */
    constructor (initializerSize: Word)
      requires initializerSize < SHMEM_SIZE
      ensures Valid() && offset == initializerSize
    {
      offset := initializerSize;
    }

    /** The guest address of fresh memory, or None for the exception. */
    method AllocateShared(size: Word, alignment: Word) returns (result: Option<Word>)
      requires Valid() && alignment > 0
      modifies this
      ensures Valid()
      ensures result.None? ==> offset == old(offset)
      ensures result.None? <==>
              size == 0 || Rounded(old(offset), alignment) + size >= SHMEM_SIZE
      ensures result.Some? ==>
              && result.value == SHMEM_START + Rounded(old(offset), alignment)
              && offset == result.value - SHMEM_START + size
    {
      var aligned := Aligned(offset, alignment);
      if aligned >= offset && Wrap(aligned + size) > aligned && Wrap(aligned + size) < SHMEM_SIZE {
        result := Some(SHMEM_START + aligned);
        offset := Wrap(aligned + size);
      } else {
        result := None;
      }
    }
  }

  /** What the host allocates, the guest accepts, at the offset where the host put it. */
  lemma HostAllocationIsAccepted(offset: nat, alignment: nat, address: Word, elementSize: Word, count: Word)
    requires alignment > 0 && address == SHMEM_START + Rounded(offset, alignment)
    requires 0 < elementSize * count < SHMEM_SIZE - (address - SHMEM_START)
    ensures ValidateArray(SHARED, address, elementSize, count) == Some(address - SHMEM_START)
  {
    InBoundsArrayIsAccepted(SHARED, address, elementSize, count);
  }

  // --- Alignment -------------------------------------------------------------------

  function PowerOfTwo(k: nat): (r: nat)
    ensures r > 0
  {
    if k == 0 then 1 else 2 * PowerOfTwo(k - 1)
  }

  lemma {:induction false} PowerSplit(j: nat, k: nat)
    ensures PowerOfTwo(j + k) == PowerOfTwo(j) * PowerOfTwo(k)
  {
    if j > 0 {
      PowerSplit(j - 1, k);
      Arith.Expand(2, PowerOfTwo(j - 1), 0, PowerOfTwo(k));
    }
  }

  lemma PowersAre()
    ensures PowerOfTwo(26) == 0x400_0000
  {
    assert PowerOfTwo(8) == 0x100;
    PowerSplit(8, 8);
    PowerSplit(16, 8);
    PowerSplit(2, 24);
  }

  /** The shared range starts at a multiple of the powers of two up to 2^26, its size, and of no others. */
  lemma StartIsAlignedIff(k: nat)
    ensures SHMEM_START % PowerOfTwo(k) == 0 <==> k <= 26
  {
    PowersAre();
    if k <= 26 {
      PowerSplit(26 - k, k);
      var n := PowerOfTwo(26 - k);
      Arith.Expand(0x3FFF, n, 0, PowerOfTwo(k));
      Arith.QuotientUnique(SHMEM_START, PowerOfTwo(k), 0x3FFF * n, 0);
    } else {
      PowerSplit(k - 27, 27);
      if SHMEM_START % PowerOfTwo(k) == 0 { FactorDivides(SHMEM_START, PowerOfTwo(k - 27), 0x800_0000); }
    }
  }

  lemma FactorDivides(x: nat, m: nat, c: nat)
    requires m > 0 && c > 0 && m * c > 0 && x % (m * c) == 0
    ensures x % c == 0
  {
    var n := x / (m * c);
    assert x == n * (m * c);
    Arith.Expand(n, m, 0, c);
    Arith.QuotientUnique(x, c, n * m, 0);
  }

  lemma SameRemainder(base: nat, r: nat, alignment: nat)
    requires alignment > 0 && r % alignment == 0
    ensures (base + r) % alignment == base % alignment
  {
    var q := base / alignment + r / alignment;
    assert base == base / alignment * alignment + base % alignment && r == r / alignment * alignment;
    assert base + r == q * alignment + base % alignment;
    Arith.QuotientUnique(base + r, alignment, q, base % alignment);
  }

  /** The alignments a C++ type can ask for that the start of the range has too. */
  ghost predicate IsPower(alignment: nat) {
    exists k: nat :: k <= 26 && alignment == PowerOfTwo(k)
  }

  /** A block that the guest accepts and that is aligned as asked, as far as the start of the range is. */
  ghost predicate BlockOk(address: Word, size: Word, alignment: Word)
    requires alignment > 0
  {
    && ValidateArray(SHARED, address, 1, size).Some?
    && address % alignment == SHMEM_START % alignment
    && (IsPower(alignment) ==> address % alignment == 0)
  }

  lemma BlockIsOk(before: nat, address: Word, size: Word, alignment: Word)
    requires alignment > 0 && address == SHMEM_START + Rounded(before, alignment)
    requires 0 < size < SHMEM_SIZE - (address - SHMEM_START)
    ensures BlockOk(address, size, alignment)
  {
    HostAllocationIsAccepted(before, alignment, address, 1, size);
    SameRemainder(SHMEM_START, address - SHMEM_START, alignment);
    if IsPower(alignment) {
      var k: nat :| k <= 26 && alignment == PowerOfTwo(k);
      StartIsAlignedIff(k);
    }
  }

  /** Any run of allocations: blocks in increasing order, disjoint, each aligned and accepted by the guest. */
  method AllocateAll(platform: Platform, sizes: seq<Word>, alignments: seq<Word>) returns (addresses: seq<Word>)
    requires platform.Valid() && |alignments| == |sizes|
    requires forall i :: 0 <= i < |alignments| ==> alignments[i] > 0
    modifies platform
    ensures platform.Valid() && |addresses| <= |sizes|
    ensures forall i, j :: 0 <= i < j < |addresses| ==> addresses[i] as int + sizes[i] as int <= addresses[j]
    ensures forall i :: 0 <= i < |addresses| ==> BlockOk(addresses[i], sizes[i], alignments[i])
    ensures |addresses| < |sizes| ==>
              || sizes[|addresses|] == 0
              || Rounded(platform.offset, alignments[|addresses|]) + sizes[|addresses|] >= SHMEM_SIZE
  {
    addresses := [];
    for k := 0 to |sizes|
      invariant platform.Valid() && |addresses| == k
      invariant forall i, j :: 0 <= i < j < k ==> addresses[i] as int + sizes[i] as int <= addresses[j]
      invariant forall i :: 0 <= i < k ==> addresses[i] as int + sizes[i] as int <= SHMEM_START + platform.offset
      invariant forall i :: 0 <= i < k ==> BlockOk(addresses[i], sizes[i], alignments[i])
    {
      ghost var before := platform.offset;
      var result := platform.AllocateShared(sizes[k], alignments[k]);
      if result.None? { return; }
      BlockIsOk(before, result.value, sizes[k], alignments[k]);
      addresses := addresses + [result.value];
    }
  }
}
