/**
Compartment ownership of memory: MonzaCompartmentOwnership and its MonzaRange
(guest-verona-rt/include/public/snmalloc/snmalloc.h) together with the page
fault handler (guest-verona-rt/arch/x86_64/trap.cc).

Three representations of "compartment c owns unit u" are updated one after the
other: the owner field of the unit's pagemap entry, c's ring of entries, and
c's page table.  The snmalloc range below is abstract: it hands out units that
are in its free set and takes them back.
*/
module Ownership {
  import opened Common
  import Arith
  import opened Words
  import opened Sequences
  import opened Paging
  import PageTable
  import opened OwnerRing
  import Laws = PageTableLaws
  import opened OwnershipViews
  import opened OwnershipSteps

  /** The range is just the unit at the front of c's ring. */
  ghost predicate FirstOnly(contents: map<nat, seq<nat>>, c: nat, first: nat, count: nat) {
    count == 1 && Ring(contents, c) != [] && Ring(contents, c)[0] == first
  }

  /** The ring of c now holds s and the other rings are unchanged. */
  ghost predicate OnlyRing(contents: map<nat, seq<nat>>, contents': map<nat, seq<nat>>, c: nat, s: seq<nat>) {
    forall d :: Ring(contents', d) == if d == c then s else Ring(contents, d)
  }

  /** The ends of a range that the loops over it can deal with: below 2^48, or wrapped so that they do nothing. */
  predicate InRange(base: Word, size: Word) {
    base + size <= ADDRESS_LIMIT || (ADDRESS_LIMIT <= base && WORD <= base + size)
  }

  // --- The owner check --------------------------------------------------------------

  /** The units whose owner is looked up: one for each step of a unit from p to the end. */
  ghost predicate Checked(unit: nat, p: Word, end: Word, u: nat)
    requires unit > 0
  {
    p / unit <= u && p + (u - p / unit) * unit < end
  }

  lemma CheckedUnit(unit: nat, p: Word, end: Word, k: nat)
    requires unit > 0 && p + k * unit < end
    ensures (p + k * unit) / unit == p / unit + k && Checked(unit, p, end, p / unit + k)
  {
    var q, r := p / unit, p % unit;
    assert p + k * unit == (q + k) * unit + r by { assert p == q * unit + r; }
    Arith.QuotientUnique(p + k * unit, unit, q + k, r);
  }

  lemma CheckedBefore(unit: nat, p: Word, end: Word, k: nat, u: nat)
    requires unit > 0 && end <= p + k * unit && Checked(unit, p, end, u)
    ensures p / unit <= u < p / unit + k
  {
    var j := u - p / unit;
    if k <= j { Arith.MulMonotone(k, j, unit); }
  }

  lemma NextUnit(lowest: nat, a: Word)
    requires lowest <= 1 && (a / UnitSize(lowest) + 1) * UnitSize(lowest) <= ADDRESS_LIMIT
    ensures a + UnitSize(lowest) < WORD
  {
    if lowest == 0 {
      assert a < (a / 0x4000 + 1) * 0x4000;
    } else {
      assert a < (a / 0x20_0000 + 1) * 0x20_0000;
    }
  }

  /** For whole units the check asks for the owner of every unit of the range, and of none if the end wraps. */
  lemma CheckedWhole(unit: nat, p: Word, size: Word, u: nat)
    requires unit > 0 && p % unit == 0 && size % unit == 0
    ensures Checked(unit, p, Wrap(p + size), u) <==>
            p + size < WORD && p / unit <= u < p / unit + size / unit
  {
    var q, n, end := p / unit, size / unit, Wrap(p + size);
    assert p == q * unit && size == n * unit;
    if q <= u {
      var j := u - q;
      Arith.MulMonotone(0, j, unit);
      if p + size >= WORD {
        assert end < p;
      } else if j < n {
        Arith.MulMonotone(j + 1, n, unit);
      } else {
        Arith.MulMonotone(n, j, unit);
      }
    }
  }

  lemma LastUnit(unit: nat, p: nat, size: nat)
    requires unit > 0 && size > 0
    ensures (p + size - 1) / unit ==
            p / unit + (size - 1) / unit + if p % unit + (size - 1) % unit < unit then 0 else 1
  {
    var r, n, t := p % unit, (size - 1) / unit, (size - 1) % unit;
    assert size - 1 == n * unit + t;
    Arith.Carry(p, t, n, unit);
    if r + t < unit { Arith.QuotientUnique(r + t, unit, 0, r + t); }
    else { Arith.QuotientUnique(r + t, unit, 1, r + t - unit); }
  }

  /** The check looks up the owners of as many units as the size needs, counted from the first. */
  lemma CheckedCount(unit: nat, p: Word, size: Word, u: nat)
    requires unit > 0 && size > 0 && p + size < WORD
    ensures Checked(unit, p, p + size, u) <==> p / unit <= u <= p / unit + (size - 1) / unit
  {
    if p / unit <= u {
      var j, n := u - p / unit, (size - 1) / unit;
      assert size - 1 == n * unit + (size - 1) % unit;
      if j <= n { Arith.MulMonotone(j, n, unit); } else { Arith.MulMonotone(n + 1, j, unit); }
    }
  }

  /**
  The check looks up the owner of every unit that a range touches exactly when the offsets of its
  first and last byte do not carry into one more unit.
  */
  lemma CheckCoversRangeIff(unit: nat, p: Word, end: Word)
    requires unit > 0 && p < end
    ensures (forall u: nat :: p / unit <= u <= (end - 1) / unit ==> Checked(unit, p, end, u)) <==>
            p % unit + (end - 1 - p) % unit < unit
  {
    var size := end - p;
    LastUnit(unit, p, size);
    forall u: nat ensures Checked(unit, p, end, u) <==> p / unit <= u <= p / unit + (size - 1) / unit {
      CheckedCount(unit, p, size, u);
    }
    assert Checked(unit, p, end, (end - 1) / unit) <==> p % unit + (size - 1) % unit < unit;
  }

  lemma ValidIff(lowest: nat, owner: map<nat, nat>, c: nat, p: Word, size: Word)
    requires lowest <= 1 && p % UnitSize(lowest) == 0 && size % UnitSize(lowest) == 0
    ensures (forall u: nat {:trigger OwnerOf(owner, u)} ::
               Checked(UnitSize(lowest), p, Wrap(p + size), u) ==> OwnerOf(owner, u) == c) <==>
            p + size >= WORD || OwnedBy(owner, p / UnitSize(lowest), size / UnitSize(lowest), c)
  {
    var unit, end := UnitSize(lowest), Wrap(p + size);
    forall u: nat
      ensures Checked(unit, p, end, u) <==> p + size < WORD && p / unit <= u < p / unit + size / unit
    {
      CheckedWhole(unit, p, size, u);
    }
  }

  lemma SlabAligned(unit: nat, p: nat, slabSize: nat)
    requires unit > 0 && slabSize > 0 && slabSize % unit == 0
    ensures p / slabSize * slabSize == p <==> p % slabSize == 0
    ensures p % slabSize == 0 ==> p % unit == 0
  {
    var q, n := p / slabSize, slabSize / unit;
    assert p == q * slabSize + p % slabSize;
    if p % slabSize == 0 {
      assert p == (q * n) * unit by { Arith.Expand(q, n, 0, unit); }
      Arith.QuotientUnique(p, unit, q * n, 0);
    }
  }

  /** A chunk that is granted lies below 2^48 or wraps. */
  lemma ChunkInRange(lowest: nat, kernelRoot: nat, v: View, c: nat, p: Word, size: Word, slabSize: Word)
    requires lowest <= 1 && ViewOk(lowest, kernelRoot, v) && c != NO_OWNER
    requires slabSize > 0 && slabSize % UnitSize(lowest) == 0 && ChunkOk(lowest, v.owner, c, p, size, slabSize)
    ensures InRange(p, size)
  {
    var unit := UnitSize(lowest);
    SlabAligned(unit, p, slabSize);
    if p + size >= WORD {
      WrappedChunkIsHigh(lowest, p, size, slabSize, p);
    } else {
      var last := p / unit + size / unit - 1;
      assert size == size / unit * unit && p == p / unit * unit;
      assert OwnerOf(v.owner, last) == c && UnitOk(lowest, v, last);
    }
  }

  lemma HighIsUnowned(lowest: nat, kernelRoot: nat, v: View, base: nat, size: nat)
    requires lowest <= 1 && ViewOk(lowest, kernelRoot, v) && ADDRESS_LIMIT <= base
    ensures OwnedBy(v.owner, base / UnitSize(lowest), size / UnitSize(lowest), NO_OWNER)
  {
    var unit := UnitSize(lowest);
    forall u: nat | base / unit <= u ensures OwnerOf(v.owner, u) == NO_OWNER {
      assert UnitOk(lowest, v, u);
      assert base < (base / unit + 1) * unit;
      Arith.MulMonotone(base / unit + 1, u + 1, unit);
    }
  }

  // --- The walk over a ring ---------------------------------------------------------

  /** From the first element of a ring, next leads to the first of the ring without it. */
  lemma NextOnRing(next: map<Ref, Ref>, prev: map<Ref, Ref>, c: nat, s: seq<nat>)
    requires RingIs(next, prev, c, s) && Follow(next, Head(c)) != Null && s != []
    ensures At(c, s, 1) == Unit(s[0]) && Follow(next, Unit(s[0])) == At(c, s[1..], 1)
  {
    assert LinkedAt(next, prev, c, s, 0) && LinkedAt(next, prev, c, s, 1);
  }

  lemma FirstOnRing(next: map<Ref, Ref>, prev: map<Ref, Ref>, contents: map<nat, seq<nat>>, c: nat)
    requires RingOk(next, prev, contents, c) && Follow(next, Head(c)) != Null
    ensures Follow(next, Head(c)) == At(c, Ring(contents, c), 1)
  {
    assert LinkedAt(next, prev, c, Ring(contents, c), 0);
  }

  /** The units of c's ring up to some point were visited: they are off the ring, and back in the free set. */
  ghost predicate Walked(lowest: nat, v: View, v': View, c: nat, visited: seq<nat>)
    requires lowest <= 1 && c in v.roots && c in v.borrowed
  {
    && visited <= Ring(v.contents, c)
    && OnlyRing(v.contents, v'.contents, c, Ring(v.contents, c)[|visited|..])
    && Cleared(lowest, v, v', c, visited)
  }

  lemma NothingWalked(lowest: nat, v: View, c: nat)
    requires lowest <= 1 && c in v.roots && c in v.borrowed
    ensures Walked(lowest, v, v, c, [])
  {
    assert Cleared(lowest, v, v, c, []);
  }

  lemma WalkedNext(lowest: nat, v: View, v': View, v'': View, c: nat, visited: seq<nat>, u: nat)
    requires lowest <= 1 && c in v.roots && c in v.borrowed && Walked(lowest, v, v', c, visited)
    requires Ring(v'.contents, c) != [] && Ring(v'.contents, c)[0] == u
    requires v''.contents == v'.contents[c := Ring(v'.contents, c)[1..]]
    requires Returned(lowest, v', v'', c, u * UnitSize(lowest), UnitSize(lowest))
    ensures Walked(lowest, v, v'', c, visited + [u]) && Ring(v''.contents, c) == Ring(v'.contents, c)[1..]
  {
    var ring := Ring(v.contents, c);
    assert Ring(v'.contents, c) == ring[|visited|..];
    assert ring[|visited|..][1..] == ring[|visited + [u]|..];
    ClearedNext(lowest, v, v', v'', c, visited, u);
  }

  lemma HandedIsOwned(lowest: nat, v: View, handed: map<nat, nat>, first: nat, count: nat, c: nat)
    requires lowest <= 1 && HandedOk(lowest, v, handed) && HandedTo(handed, first, count, c)
    ensures OwnedBy(v.owner, first, count, c)
  {
    forall u: nat | first <= u < first + count ensures OwnerOf(v.owner, u) == c {
      assert HandedAt(lowest, v, handed, u);
    }
  }

  class Backend {
    const tables: PageTable.TableMemory
    const lists: Lists
    var owner: map<nat, nat>
    var free: set<nat>
    var roots: map<nat, nat>
    ghost var borrowed: map<nat, Extra>

    ghost function V(): View
      reads this, tables, lists
    {
      View(tables.store, tables.place, lists.contents, owner, free, roots, borrowed)
    }

    ghost predicate Valid()
      reads this, tables, lists
    {
      tables.Valid() && lists.Valid() && ViewOk(tables.lowest, tables.kernelRoot, V())
    }

    constructor (largePages: bool, heap: set<nat>)
      ensures Valid() && V() == View(tables.store, tables.place, map[], map[], heap, map[], map[])
      ensures tables.lowest == if largePages then 1 else 0
      ensures fresh(tables) && fresh(lists)
    {
      tables := new PageTable.TableMemory(largePages);
      lists := new Lists();
      owner, free, roots, borrowed := map[], heap, map[], map[];
      new;
      var root := tables.CreateTable(true);
      tables.kernelRoot := root;
      EmptyOk(tables.lowest, root, tables.store, tables.place, heap);
    }

    /** create_compartment_pagetable with its predefined ranges, none of which grants user writes. */
    method CreateTable(predefined: seq<Range>) returns (root: nat)
      requires tables.Valid()
      requires forall i :: 0 <= i < |predefined| ==> PredefinedOk(tables.lowest, predefined[i])
      modifies tables`store, tables`place
      ensures tables.Valid()
      ensures TableCreated(tables.lowest, old(tables.store), old(tables.place), tables.store, tables.place,
                           root, predefined)
    {
      root := tables.CreateTable(false);
      forall r | IsRoot(old(tables.place), r)
        ensures TablesKept(tables.lowest, old(tables.store), old(tables.place), tables.store, tables.place, r)
      {
      }
      for i := 0 to |predefined|
        invariant tables.Valid()
        invariant TableCreated(tables.lowest, old(tables.store), old(tables.place), tables.store, tables.place,
                               root, predefined[..i])
      {
        ghost var store, place := tables.store, tables.place;
        assert PredefinedOk(tables.lowest, predefined[i]);
        tables.MapPredefined(root, predefined[i].base, predefined[i].size, predefined[i].perm);
        TableExtended(tables.lowest, old(tables.store), old(tables.place), store, place, tables.store, tables.place,
                      root, predefined, i);
      }
      assert predefined[..|predefined|] == predefined;
    }

    method CreateCompartment(c: nat, predefined: seq<Range>)
      requires Valid() && c != NO_OWNER && c !in roots
      requires forall i :: 0 <= i < |predefined| ==> PredefinedOk(tables.lowest, predefined[i])
      modifies this`roots, this`borrowed, tables`store, tables`place
      ensures Valid() && c in roots
      ensures Created(tables.lowest, old(V()), V(), c, roots[c], predefined)
    {
      var root := CreateTable(predefined);
      roots := roots[c := root];
      borrowed := borrowed[c := PredefinedPages(tables.lowest, predefined)];
      CreatedOk(tables.lowest, tables.kernelRoot, old(V()), V(), c, root, predefined);
    }

    /** add_monza_owner for the units [first, first + count) */
    method AddOwner(first: nat, count: nat, c: nat) returns (result: Result)
      requires lists.Valid() && RingsMatchOwners(owner, lists.contents) && c != NO_OWNER
      modifies this`owner, lists
      ensures result == Fatal <==> !OwnedBy(old(owner), first, count, NO_OWNER)
      ensures result == Fatal || result == Ok
      ensures result == Ok ==>
                && lists.Valid()
                && RingsMatchOwners(owner, lists.contents)
                && OwnersSet(old(owner), owner, first, count, c)
    {
      var u := first;
      while u < first + count
        invariant first <= u <= first + count
        invariant lists.Valid() && RingsMatchOwners(owner, lists.contents)
        invariant OwnersSet(old(owner), owner, first, u - first, c)
        invariant OwnedBy(old(owner), first, u - first, NO_OWNER)
      {
        assert OwnerOf(owner, u) == OwnerOf(old(owner), u);
        if OwnerOf(owner, u) != NO_OWNER {
          return Fatal;
        }
        OwnerAdded(owner, lists.contents, u, c);
        OwnersSetNext(old(owner), owner, first, u - first, c);
        owner := owner[u := c];
        lists.Add(c, u);
        u := u + 1;
      }
      return Ok;
    }

    /** remove_monza_owner for the units [first, first + count) */
    method RemoveOwner(first: nat, count: nat, c: nat) returns (result: Result)
      requires lists.Valid() && RingsMatchOwners(owner, lists.contents) && c != NO_OWNER
      modifies this`owner, lists
      ensures result == Fatal <==> !OwnedBy(old(owner), first, count, c)
      ensures result == Fatal || result == Ok
      ensures result == Ok ==>
                && lists.Valid()
                && RingsMatchOwners(owner, lists.contents)
                && OwnersSet(old(owner), owner, first, count, NO_OWNER)
      ensures result == Ok && FirstOnly(old(lists.contents), c, first, count) ==>
                lists.contents == old(lists.contents)[c := Ring(old(lists.contents), c)[1..]]
    {
      var u := first;
      while u < first + count
        invariant first <= u <= first + count
        invariant lists.Valid() && RingsMatchOwners(owner, lists.contents)
        invariant OwnersSet(old(owner), owner, first, u - first, NO_OWNER)
        invariant OwnedBy(old(owner), first, u - first, c)
        invariant u == first ==> lists.contents == old(lists.contents)
        invariant u > first && FirstOnly(old(lists.contents), c, first, count) ==>
                    lists.contents == old(lists.contents)[c := Ring(old(lists.contents), c)[1..]]
      {
        assert OwnerOf(owner, u) == OwnerOf(old(owner), u);
        if OwnerOf(owner, u) != c {
          return Fatal;
        }
        ghost var ring := Ring(lists.contents, c);
        assert u in ring;
        ghost var k :| 0 <= k < |ring| && ring[k] == u;
        assert RingOk(lists.next, lists.prev, lists.contents, c);
        assert FirstOnly(lists.contents, c, first, count) ==> k == 0 && Delete(ring, k) == ring[1..];
        OwnerRemoved(owner, lists.contents, c, k);
        OwnersSetNext(old(owner), owner, first, u - first, NO_OWNER);
        owner := owner[u := NO_OWNER];
        lists.Remove(u, c, k);
        u := u + 1;
      }
      return Ok;
    }

    /** MonzaRange::alloc_range of compartment c (or of the kernel), given the parent range's answer. */
    method AllocRange(c: nat, size: nat, answer: Option<nat>) returns (result: Result)
      requires Valid() && (c == NO_OWNER || c in roots)
      requires size % UnitSize(tables.lowest) == 0
      requires answer.Some? ==>
                 && answer.value % UnitSize(tables.lowest) == 0
                 && answer.value + size <= ADDRESS_LIMIT
                 && Units(answer.value / UnitSize(tables.lowest), size / UnitSize(tables.lowest)) <= free
      modifies this`owner, this`free, lists, tables`store, tables`place
      ensures result == Ok && Valid()
      ensures answer.None? ==> V() == old(V())
      ensures answer.Some? && c == NO_OWNER ==> FreeShrinks(tables.lowest, old(V()), V(), answer.value, size)
      ensures answer.Some? && c != NO_OWNER ==> Given(tables.lowest, old(V()), V(), c, answer.value, size)
    {
      result := Ok;
      if answer.Some? {
        var base, unit := answer.value, UnitSize(tables.lowest);
        var first, count := base / unit, size / unit;
        ghost var v := V();
        FreeIsUnowned(tables.lowest, tables.kernelRoot, v, first, count);
        free := free - Units(first, count);
        if c == NO_OWNER {
          FreeChangedOk(tables.lowest, tables.kernelRoot, v, free);
        } else {
          assert RootOk(tables.kernelRoot, v, c);
          result := AddOwner(first, count, c);
          UnitRange(tables.lowest, base, size, base);
          var outcome := tables.MapPages(roots[c], false, base, size, CompartmentWrite);
          GivenOk(tables.lowest, tables.kernelRoot, v, V(), c, base, size);
        }
      }
    }

    /**
    MonzaRange::dealloc_range of compartment c, or of the kernel for memory that no compartment owns.
    When the end of the range wraps, the loops over the page table and over the owners run zero times.
    */
    method DeallocRange(c: nat, base: Word, size: Word) returns (result: Result)
      requires Valid() && (c == NO_OWNER || c in roots) && InRange(base, size)
      requires base % UnitSize(tables.lowest) == 0 && size % UnitSize(tables.lowest) == 0
      requires c == NO_OWNER ==>
                 OwnedBy(owner, base / UnitSize(tables.lowest), size / UnitSize(tables.lowest), NO_OWNER)
      modifies this`owner, this`free, this`borrowed, lists, tables`store
      ensures result == Ok || result == Fatal
      ensures result == Fatal <==>
                base + size < WORD &&
                !OwnedBy(old(owner), base / UnitSize(tables.lowest), size / UnitSize(tables.lowest), c)
      ensures result == Ok ==> Valid()
      ensures result == Ok && (c == NO_OWNER || base + size >= WORD) ==>
                FreeGrows(tables.lowest, old(V()), V(), base, size)
      ensures result == Ok && c != NO_OWNER && base + size < WORD ==>
                Known(old(V()), c) && Returned(tables.lowest, old(V()), V(), c, base, size)
      ensures result == Ok && c != NO_OWNER && base + size < WORD &&
                FirstOnly(old(lists.contents), c, base / UnitSize(tables.lowest), size / UnitSize(tables.lowest)) ==>
                lists.contents == old(lists.contents)[c := Ring(old(lists.contents), c)[1..]]
    {
      result := Ok;
      var unit := UnitSize(tables.lowest);
      var first, count := base / unit, size / unit;
      ghost var v := V();
      if c != NO_OWNER && base + size < WORD {
        assert RootOk(tables.kernelRoot, v, c);
        UnitRange(tables.lowest, base, size, base);
        var outcome := tables.UnmapPages(roots[c], base, size);
        result := RemoveOwner(first, count, c);
        if result == Fatal {
          return;
        }
        free := free + Units(first, count);
        borrowed := borrowed[c := Less(borrowed[c], PagesOf(tables.lowest, base, size))];
        ReturnedOk(tables.lowest, tables.kernelRoot, v, V(), c, base, size);
      } else {
        if base + size >= WORD { HighIsUnowned(tables.lowest, tables.kernelRoot, v, base, size); }
        free := free + Units(first, count);
        FreeChangedOk(tables.lowest, tables.kernelRoot, v, free);
      }
    }

    /** The body run by dealloc_all for one entry, here the one at the front of the ring. */
    method DeallocUnit(c: nat, u: nat) returns (result: Result)
      requires Valid() && c in roots
      requires Ring(lists.contents, c) != [] && Ring(lists.contents, c)[0] == u
      modifies this`owner, this`free, this`borrowed, lists, tables`store
      ensures result == Ok && Valid()
      ensures lists.contents == old(lists.contents)[c := Ring(old(lists.contents), c)[1..]]
      ensures Known(old(V()), c)
      ensures Returned(tables.lowest, old(V()), V(), c, u * UnitSize(tables.lowest), UnitSize(tables.lowest))
    {
      assert u in Ring(lists.contents, c);
      assert OwnerOf(owner, u) == c;
      assert UnitOk(tables.lowest, V(), u);
      OneUnit(tables.lowest, u, 0);
      result := DeallocRange(c, u * UnitSize(tables.lowest), UnitSize(tables.lowest));
      assert OwnerOf(owner, u) == NO_OWNER && owner[u := NO_OWNER] == owner;
      owner := owner[u := NO_OWNER];
    }

    /** MonzaRange::dealloc_all: walk the ring while the body unlinks the element it visits. */
    method DeallocAll(c: nat) returns (result: Result, ghost visited: seq<nat>)
      requires Valid() && c in roots
      modifies this`owner, this`free, this`borrowed, lists, tables`store
      ensures result == Ok && Valid()
      ensures visited == Ring(old(lists.contents), c)
      ensures OnlyRing(old(lists.contents), lists.contents, c, [])
      ensures Known(old(V()), c) && Cleared(tables.lowest, old(V()), V(), c, visited)
    {
      ghost var v := V();
      assert RootOk(tables.kernelRoot, v, c);
      lists.LazyInit(c);
      result, visited := Ok, [];
      var curr := Follow(lists.next, Head(c));
      FirstOnRing(lists.next, lists.prev, lists.contents, c);
      NothingWalked(tables.lowest, v, c);
      while curr != Head(c)
        invariant Valid() && roots == v.roots && result == Ok
        invariant Walked(tables.lowest, v, V(), c, visited)
        invariant curr == At(c, Ring(lists.contents, c), 1)
        decreases |Ring(v.contents, c)| - |visited|
      {
        ghost var v' := V();
        assert RingOk(lists.next, lists.prev, lists.contents, c);
        NextOnRing(lists.next, lists.prev, c, Ring(lists.contents, c));
        var u := curr.u;
        var n := Follow(lists.next, curr);
        result := DeallocUnit(c, u);
        WalkedNext(tables.lowest, v, v', V(), c, visited, u);
        visited := visited + [u];
        curr := n;
      }
    }

    /**
    page_fault_handler for a fault at address a while compartment c is the innermost active one.  A
    handled fault does not come again: the access is then possible.  The kernel ends exactly when the
    fault is its own or off the heap, or when c would write what it does not own or read what
    another compartment owns.
    */
    method PageFault(c: nat, a: Word, inKernel: bool, isWrite: bool, isHeap: bool) returns (result: Result)
      requires Valid() && c in roots && (isHeap ==> a < ADDRESS_LIMIT)
      modifies this`borrowed, tables`store, tables`place
      ensures Valid()
      ensures var o := OwnerOf(owner, a / UnitSize(tables.lowest));
              result == Aborted <==> inKernel || !isHeap || (isWrite && o != c) || (o != c && o != NO_OWNER)
      ensures result == Ok ==> CanAccess(this, c, a, isWrite)
      ensures result == if FaultOk(tables.lowest, owner, c, a, inKernel, isWrite, isHeap) then Ok else Aborted
      ensures result == Ok ==> Known(old(V()), c) && FaultedIn(tables.lowest, old(V()), V(), c, a)
      ensures result == Aborted ==> V() == old(V())
    {
      if inKernel || !isHeap {
        return Aborted;
      }
      var o := OwnerOf(owner, a / UnitSize(tables.lowest));
      if o == c {
        MapPage(c, a, CompartmentWrite);
        AccessIs(this, c, a);
        return Ok;
      } else if !isWrite && o == NO_OWNER {
        MapPage(c, a, CompartmentRead);
        AccessIs(this, c, a);
        return Ok;
      } else {
        return Aborted;
      }
    }

    method MapPage(c: nat, a: Word, perm: Permission)
      requires Valid() && c in roots && a < ADDRESS_LIMIT
      requires perm == if OwnerOf(owner, a / UnitSize(tables.lowest)) == c then CompartmentWrite else CompartmentRead
      modifies this`borrowed, tables`store, tables`place
      ensures Valid() && Known(old(V()), c) && FaultedIn(tables.lowest, old(V()), V(), c, a)
    {
      ghost var v := V();
      assert RootOk(tables.kernelRoot, v, c);
      PageRange(tables.lowest, a, a);
      PageFits(tables.lowest, a);
      var outcome := tables.MapPages(roots[c], false, PageBase(tables.lowest, a), Coverage(tables.lowest), perm);
      if perm == CompartmentRead {
        borrowed := borrowed[c := Borrows(borrowed[c], a / Coverage(tables.lowest))];
      }
      FaultedOk(tables.lowest, tables.kernelRoot, v, V(), c, a);
    }

    /** Deallocates the page table of a compartment that owns nothing. */
    method DestroyTable(c: nat)
      requires Valid() && c in roots && forall u: nat {:trigger OwnerOf(owner, u)} :: OwnerOf(owner, u) != c
      modifies this`roots, this`borrowed, tables`store, tables`place, tables`freed
      ensures Valid() && Dropped(tables.lowest, old(V()), V(), c)
    {
      ghost var v := V();
      assert RootOk(tables.kernelRoot, v, c);
      tables.Destroy(roots[c]);
      roots := roots - {c};
      borrowed := borrowed - {c};
      forall r | IsRoot(v.place, r) && r != v.roots[c]
        ensures TablesKept(tables.lowest, v.store, v.place, tables.store, tables.place, r)
      {
      }
      DroppedOk(tables.lowest, tables.kernelRoot, v, V(), c);
    }

    /** ~Type: the compartment's memory goes back to the parent range and its page table is deallocated. */
    method DestroyCompartment(c: nat) returns (result: Result)
      requires Valid() && c in roots
      modifies this, lists, tables`store, tables`place, tables`freed
      ensures result == Ok && Valid()
      ensures Known(old(V()), c) && exists mid :: Destroyed(tables.lowest, old(V()), mid, V(), c)
      ensures forall u: nat {:trigger OwnerOf(owner, u)} ::
                OwnerOf(owner, u) == if OwnerOf(old(owner), u) == c then NO_OWNER else OwnerOf(old(owner), u)
    {
      ghost var v := V();
      ghost var visited;
      result, visited := DeallocAll(c);
      ghost var mid := V();
      forall u: nat
        ensures OwnerOf(owner, u) == if OwnerOf(v.owner, u) == c then NO_OWNER else OwnerOf(v.owner, u)
      {
        assert OnOwnersRing(v.owner, v.contents, c, u);
      }
      DestroyTable(c);
      assert Destroyed(tables.lowest, v, mid, V(), c);
    }

    /** validate_owner_range, whose loop compares with the wrapped end of the range. */
    method ValidateOwnerRange(c: nat, p: Word, size: Word) returns (valid: bool)
      requires Valid() && c != NO_OWNER
      ensures valid <==>
                forall u: nat {:trigger OwnerOf(owner, u)} ::
                  Checked(UnitSize(tables.lowest), p, Wrap(p + size), u) ==> OwnerOf(owner, u) == c
    {
      var unit, end := UnitSize(tables.lowest), Wrap(p + size);
      var a: Word := p;
      ghost var k: nat := 0;
      while a < end
        invariant a == p + k * unit
        invariant forall u: nat {:trigger OwnerOf(owner, u)} :: p / unit <= u < p / unit + k ==> OwnerOf(owner, u) == c
        decreases end - a
      {
        CheckedUnit(unit, p, end, k);
        if OwnerOf(owner, a / unit) != c {
          return false;
        }
        assert UnitOk(tables.lowest, V(), a / unit);
        NextUnit(tables.lowest, a);
        a := Wrap(a + unit);
        k := k + 1;
      }
      forall u: nat | Checked(unit, p, end, u)
        ensures OwnerOf(owner, u) == c
      {
        CheckedBefore(unit, p, end, k, u);
      }
      return true;
    }

    /**
    compartment_forward_dealloc_chunk, given the slab size that the metadata of p records;
    Aborted stands for abort_kernel_callback.
    */
    method ForwardDeallocChunk(c: nat, p: Word, size: Word, slabSize: Word) returns (result: Result)
      requires Valid() && c in roots
      requires slabSize > 0 && slabSize % UnitSize(tables.lowest) == 0
      modifies this`owner, this`free, this`borrowed, lists, tables`store
      ensures Valid()
      ensures Stepped(tables.lowest, old(V()), V(), DeallocChunk(c, p, size, slabSize), result)
    {
      var unit := UnitSize(tables.lowest);
      ghost var v := V();
      SlabAligned(unit, p, slabSize);
      var valid := ValidateOwnerRange(c, p, size);
      if !valid {
        if p % slabSize == 0 && size == slabSize { ValidIff(tables.lowest, owner, c, p, size); }
        return Aborted;
      } else if slabSize != size || p / slabSize * slabSize != p {
        return Aborted;
      }
      ValidIff(tables.lowest, owner, c, p, size);
      ChunkInRange(tables.lowest, tables.kernelRoot, v, c, p, size, slabSize);
      result := DeallocRange(c, p, size);
    }

    /** One operation, if it is one that is asked for, and what is held afterwards. */
    method Step(operation: Operation, handed: map<nat, nat>) returns (result: Option<Result>, handed': map<nat, nat>)
      requires Valid() && HandedOk(tables.lowest, V(), handed)
      modifies this, lists, tables`store, tables`place, tables`freed
      ensures Valid() && HandedOk(tables.lowest, V(), handed')
      ensures StepDone(tables.lowest, tables.kernelRoot, old(V()), V(), handed, handed', operation, result)
      ensures result != Some(Fatal)
    {
      if !Enabled(tables.lowest, free, roots, handed, operation) {
        return None, handed;
      }
      var r := Perform(operation, handed);
      HandedStep(tables.lowest, tables.kernelRoot, old(V()), V(), handed, operation, r);
      return Some(r), HandedAfter(tables.lowest, handed, operation, r);
    }

    method Perform(operation: Operation, ghost handed: map<nat, nat>) returns (result: Result)
      requires Valid() && HandedOk(tables.lowest, V(), handed)
      requires Enabled(tables.lowest, free, roots, handed, operation)
      modifies this, lists, tables`store, tables`place, tables`freed
      ensures Valid() && Stepped(tables.lowest, old(V()), V(), operation, result)
    {
      ghost var v := V();
      match operation
      case Create(c, predefined) =>
        CreateCompartment(c, predefined);
        result := Ok;
      case Alloc(c, size, answer) =>
        assert c != NO_OWNER ==> RootOk(tables.kernelRoot, v, c);
        result := AllocRange(c, size, answer);
      case Dealloc(c, base, size) =>
        HandedIsOwned(tables.lowest, v, handed, base / UnitSize(tables.lowest), size / UnitSize(tables.lowest), c);
        result := DeallocRange(c, base, size);
      case DeallocChunk(c, p, size, slabSize) =>
        result := ForwardDeallocChunk(c, p, size, slabSize);
      case DeallocAll(c) =>
        ghost var visited;
        result, visited := DeallocAll(c);
      case Fault(c, a, inKernel, isWrite, isHeap) =>
        result := PageFault(c, a, inKernel, isWrite, isHeap);
      case Destroy(c) =>
        result := DestroyCompartment(c);
    }

    /**
    Any run of operations, in any order and over any compartments: the state stays valid, what is
    handed out is what is owned, and neither of the fatal errors is ever raised.  Operations that
    are not asked for are passed over.
    */
    method Run(operations: seq<Operation>, handed: map<nat, nat>)
      returns (results: seq<Option<Result>>, ghost views: seq<View>, held: seq<map<nat, nat>>)
      requires Valid() && HandedOk(tables.lowest, V(), handed)
      modifies this, lists, tables`store, tables`place, tables`freed
      ensures Valid() && IsRun(tables.lowest, tables.kernelRoot, views, held, operations, results)
      ensures views[0] == old(V()) && views[|operations|] == V()
      ensures held[0] == handed && HandedOk(tables.lowest, V(), held[|operations|])
      ensures Some(Fatal) !in results
    {
      ghost var v0 := V();
      results, views, held := [], [v0], [handed];
      for i := 0 to |operations|
        invariant Valid()
        invariant RunTo(tables.lowest, tables.kernelRoot, views, held, operations, results, i, v0, handed, V())
      {
        ghost var v := V();
        var result, handed' := Step(operations[i], held[i]);
        RunExtends(tables.lowest, tables.kernelRoot, views, held, operations, results, i,
                   v0, handed, v, V(), handed', result);
        results, views, held := results + [result], views + [V()], held + [handed'];
      }
      assert operations[..|operations|] == operations;
      NeverFatal(tables.lowest, tables.kernelRoot, views, held, operations, results);
    }
  }

  // --- What a compartment can access ------------------------------------------------

  /**
  In every valid state, a unit is owned by c iff it is on c's ring iff all its pages are user-writable
  in c's page table iff one of them is, as the processor combines the rights along the walk.
  */
  lemma OwnedOnRingAndWritable(backend: Backend, c: nat, u: nat)
    requires backend.Valid() && c in backend.roots && (u + 1) * UnitSize(backend.tables.lowest) <= ADDRESS_LIMIT
    ensures OwnerOf(backend.owner, u) == c <==> u in Ring(backend.lists.contents, c)
    ensures OwnerOf(backend.owner, u) == c <==>
              forall a: nat :: InUnit(backend.tables.lowest, u, a) ==> CanAccess(backend, c, a, true)
    ensures OwnerOf(backend.owner, u) == c <==>
              exists a: nat :: InUnit(backend.tables.lowest, u, a) && CanAccess(backend, c, a, true)
  {
    var lowest := backend.tables.lowest;
    assert OnOwnersRing(backend.owner, backend.lists.contents, c, u);
    forall a: nat | InUnit(lowest, u, a)
      ensures CanAccess(backend, c, a, true) <==> OwnerOf(backend.owner, u) == c
    {
      OneUnit(lowest, u, a);
      AccessIs(backend, c, a);
    }
    OneUnit(lowest, u, u * UnitSize(lowest));
    assert InUnit(lowest, u, u * UnitSize(lowest));
  }

  ghost predicate InUnit(lowest: nat, u: nat, a: nat)
    requires lowest <= 1
  {
    a / UnitSize(lowest) == u
  }

  /** What the processor allows c in user mode, combining the rights along the walk. */
  ghost predicate CanAccess(backend: Backend, c: nat, a: nat, write: bool)
    requires backend.Valid() && c in backend.roots
    reads backend, backend.tables, backend.lists
  {
    var access := Laws.Effective(backend.tables.store, backend.roots[c], TOP_LEVEL, a);
    access.Access? && access.user && (write ==> access.writable)
  }

  /** What the processor allows ring 0, with write protection on, under the page table of c. */
  ghost predicate RingZeroCanWrite(backend: Backend, c: nat, a: nat)
    requires backend.Valid() && c in backend.roots
    reads backend, backend.tables, backend.lists
  {
    var access := Laws.Effective(backend.tables.store, backend.roots[c], TOP_LEVEL, a);
    access.Access? && access.writable
  }

  /**
  In every valid state, c can write exactly what it owns, and can read exactly what it owns and the
  pages it borrowed: those of its predefined ranges, and those it read while nobody owned them and
  has not returned since.  Under its page table ring 0 can write what c owns and the pages that its
  predefined ranges force.  Every access that is let through goes to the address itself.
  */
  lemma AccessIs(backend: Backend, c: nat, a: nat)
    requires backend.Valid() && c in backend.roots && a < ADDRESS_LIMIT
    ensures c in backend.borrowed
    ensures var owned := OwnerOf(backend.owner, a / UnitSize(backend.tables.lowest)) == c;
            var page, extra := a / Coverage(backend.tables.lowest), backend.borrowed[c];
            && (CanAccess(backend, c, a, true) <==> owned)
            && (CanAccess(backend, c, a, false) <==> owned || page in extra.readable)
            && (RingZeroCanWrite(backend, c, a) <==> owned || page in extra.forced)
    ensures var access := Laws.Effective(backend.tables.store, backend.roots[c], TOP_LEVEL, a);
            access.Access? ==> access.physical == a
  {
    var v, lowest, root := backend.V(), backend.tables.lowest, backend.roots[c];
    assert RootOk(backend.tables.kernelRoot, v, c) && CompartmentOk(lowest, v, c);
    assert AccessAt(lowest, v.store, v.roots[c], v.owner, v.borrowed[c], c, a);
    Laws.EffectiveIsLeaf(lowest, v.store, v.place, root, TOP_LEVEL, a);
    assert a == a / Coverage(lowest) * Coverage(lowest) + a % Coverage(lowest);
  }

  /**
  Memory that is given to a compartment as one slab can be returned as that slab: it is granted, and
  owner, table and free set are as before.  Another compartment's request to return it is refused.
  */
  method SlabRoundTrip(backend: Backend, c: nat, other: nat, base: Word, slabSize: Word)
    returns (refused: Result, granted: Result)
    requires backend.Valid() && c in backend.roots && other in backend.roots && other != c
    requires slabSize > 0 && slabSize % UnitSize(backend.tables.lowest) == 0 && base % slabSize == 0
    requires base + slabSize <= ADDRESS_LIMIT && base % UnitSize(backend.tables.lowest) == 0
    requires Units(base / UnitSize(backend.tables.lowest), slabSize / UnitSize(backend.tables.lowest)) <= backend.free
    modifies backend, backend.lists, backend.tables`store, backend.tables`place
    ensures backend.Valid() && refused == Aborted && granted == Ok && backend.free == old(backend.free)
    ensures forall u: nat {:trigger OwnerOf(backend.owner, u)} ::
              OwnerOf(backend.owner, u) == OwnerOf(old(backend.owner), u)
    ensures forall a: nat :: base <= a < base + slabSize ==> c in backend.roots && !CanAccess(backend, c, a, false)
  {
    var first, count := base / UnitSize(backend.tables.lowest), slabSize / UnitSize(backend.tables.lowest);
    ghost var v := backend.V();
    FreeIsUnowned(backend.tables.lowest, backend.tables.kernelRoot, v, first, count);
    var result := backend.AllocRange(c, slabSize, Some(base));
    ghost var v' := backend.V();
    SlabIsOwned(backend.tables.lowest, v', c, other, base, slabSize, v);
    refused := backend.ForwardDeallocChunk(other, base, slabSize, slabSize);
    granted := backend.ForwardDeallocChunk(c, base, slabSize, slabSize);
    GivenThenReturned(backend.tables.lowest, v, v', backend.V(), c, base, slabSize);
    CannotAccess(backend, c, base, slabSize);
  }

  /** The owner of a slab may return it, and nobody else. */
  lemma SlabIsOwned(lowest: nat, v': View, c: nat, other: nat, base: Word, slabSize: Word, v: View)
    requires lowest <= 1 && c in v.roots && Given(lowest, v, v', c, base, slabSize) && other != c
    requires slabSize > 0 && slabSize % UnitSize(lowest) == 0 && base % slabSize == 0
    requires base + slabSize <= ADDRESS_LIMIT
    ensures ChunkOk(lowest, v'.owner, c, base, slabSize, slabSize)
    ensures !ChunkOk(lowest, v'.owner, other, base, slabSize, slabSize)
  {
    var first, count := base / UnitSize(lowest), slabSize / UnitSize(lowest);
    assert slabSize == count * UnitSize(lowest);
    assert OwnerOf(v'.owner, first) == c;
  }

  lemma CannotAccess(backend: Backend, c: nat, base: nat, size: nat)
    requires backend.Valid() && c in backend.roots && c in backend.borrowed && base + size <= ADDRESS_LIMIT
    requires base % UnitSize(backend.tables.lowest) == 0 && size % UnitSize(backend.tables.lowest) == 0
    requires c != NO_OWNER
    requires OwnedBy(backend.owner, base / UnitSize(backend.tables.lowest),
                     size / UnitSize(backend.tables.lowest), NO_OWNER)
    requires backend.borrowed[c].readable !! PagesOf(backend.tables.lowest, base, size)
    ensures forall a: nat :: base <= a < base + size ==> !CanAccess(backend, c, a, false)
  {
    forall a: nat | base <= a < base + size ensures !CanAccess(backend, c, a, false) {
      UnitRange(backend.tables.lowest, base, size, a);
      AccessIs(backend, c, a);
    }
  }

  /**
  A page that compartment 1 reads while nobody owns it stays readable for it when its unit is given
  to compartment 2, so compartments are not kept apart for reading.
  */
  method LentPageStaysReadable() returns (backend: Backend)
    ensures backend.Valid() && 1 in backend.roots && 2 in backend.roots
    ensures OwnerOf(backend.owner, 0) == 2 && CanAccess(backend, 1, 0, false)
    ensures !ReadIsolated(backend.tables.lowest, backend.V())
  {
    backend := new Backend(false, {0});
    backend.CreateCompartment(1, []);
    backend.CreateCompartment(2, []);
    var result := backend.PageFault(1, 0, false, false, true);
    ghost var v := backend.V();
    assert 0 in backend.borrowed[1].readable;
    assert Units(0, 1) == {0};
    result := backend.AllocRange(2, 0x4000, Some(0));
    assert OwnerOf(backend.owner, 0) == 2;
    AccessIs(backend, 1, 0);
    ghost var v' := backend.V();
    assert CompartmentOk(0, v', 1);
    assert AccessAt(0, v'.store, v'.roots[1], v'.owner, v'.borrowed[1], 1, 0);
    assert !ReadsOnlyOwn(0, v', 1, 0);
  }
}
