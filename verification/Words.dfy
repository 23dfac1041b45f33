/** Unsigned 64-bit arithmetic with wrap-around, and snmalloc's alignment functions on it. */
module Words {

  const WORD: nat := 0x1_0000_0000_0000_0000

  type Word = x: int | 0 <= x < 0x1_0000_0000_0000_0000

  /** The alignments in use: HV_PAGE_SIZE is 4 KiB, and PAGE_SIZE is built as 4 KiB or 2 MiB. */
  type Alignment = a: int | a == 0x1000 || a == 0x20_0000 witness 0x1000

  function Wrap(x: int): (r: Word)
    ensures 0 <= x < WORD ==> r == x
    ensures WORD <= x < 2 * WORD ==> r == x - WORD
    ensures 0 <= x + WORD < WORD ==> r == x + WORD
  {
    x % 0x1_0000_0000_0000_0000
  }

  predicate IsAligned(x: int, a: Alignment) {
    if a == 0x1000 then x % 0x1000 == 0 else x % 0x20_0000 == 0
  }

  function AlignDown(x: Word, a: Alignment): (r: Word)
    ensures r <= x < r + a && IsAligned(r, a)
  {
    x - if a == 0x1000 then x % 0x1000 else x % 0x20_0000
  }

  /** The sum wraps, so an address in the last block below 2^64 is aligned up to 0. */
  function AlignUp(x: Word, a: Alignment): (r: Word)
    ensures IsAligned(r, a)
    ensures x + a <= WORD ==> x <= r < x + a
    ensures x + a > WORD ==> r == 0
  {
    AlignDown(Wrap(x + a - 1), a)
  }

  function Quotient(x: int, a: Alignment): int {
    if a == 0x1000 then x / 0x1000 else x / 0x20_0000
  }

  lemma IsMultiple(x: int, a: Alignment)
    requires IsAligned(x, a)
    ensures x == if a == 0x1000 then Quotient(x, a) * 0x1000 else Quotient(x, a) * 0x20_0000
  {
  }

  lemma MultipleIsAligned(q: int, a: Alignment)
    ensures IsAligned(if a == 0x1000 then q * 0x1000 else q * 0x20_0000, a)
  {
  }

  lemma SumAligned(x: nat, y: nat, a: Alignment)
    requires IsAligned(x, a) && IsAligned(y, a)
    ensures IsAligned(x + y, a)
  {
    IsMultiple(x, a);
    IsMultiple(y, a);
    MultipleIsAligned(Quotient(x, a) + Quotient(y, a), a);
  }

  /** What is aligned to a page is aligned to 4 KiB. */
  lemma AlignedToSmall(x: nat, a: Alignment)
    requires IsAligned(x, a)
    ensures IsAligned(x, 0x1000)
  {
    IsMultiple(x, a);
    if a == 0x20_0000 { MultipleIsAligned(Quotient(x, a) * 0x200, 0x1000); }
  }

  /** Two different aligned addresses are a block apart. */
  lemma AlignedApart(m: nat, n: nat, a: Alignment)
    requires IsAligned(m, a) && IsAligned(n, a) && m < n
    ensures m + a <= n
  {
    IsMultiple(m, a);
    IsMultiple(n, a);
    assert Quotient(m, a) + 1 <= Quotient(n, a);
  }

  lemma DownIsGreatest(x: Word, a: Alignment, m: nat)
    requires IsAligned(m, a) && m <= x
    ensures m <= AlignDown(x, a)
  {
    if AlignDown(x, a) < m {
      AlignedApart(AlignDown(x, a), m, a);
      assert false;
    }
  }

  lemma UpIsLeast(x: Word, a: Alignment, m: nat)
    requires IsAligned(m, a) && x <= m && x + a <= WORD
    ensures AlignUp(x, a) <= m
  {
    if m < AlignUp(x, a) {
      AlignedApart(m, AlignUp(x, a), a);
      assert false;
    }
  }
}
