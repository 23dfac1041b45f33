/**
The state of compartment ownership as a value: which unit belongs to whom, the rings, the page
tables and the pages a compartment can read without owning them, and what keeps them in step.
*/
module OwnershipViews {
  import opened Common
  import Arith
  import opened Sequences
  import opened Paging
  import opened OwnerRing

  const NO_OWNER: nat := 0

  /** MIN_OWNERSHIP_SIZE: the larger of the page size and snmalloc's smallest chunk. */
  function UnitSize(lowest: nat): (size: nat)
    requires lowest <= 1
    ensures size > 0
  {
    if lowest == 0 then 0x4000 else 0x20_0000
  }

  function OwnerOf(owner: map<nat, nat>, u: nat): nat {
    if u in owner then owner[u] else NO_OWNER
  }

  function UserWritable(e: Entry): bool {
    e.present && e.writable && e.user
  }

  function UserReadable(e: Entry): bool {
    e.present && e.user
  }

  /** What ring 0 can write with write protection on: the leaf's right, as no right is lost above it. */
  function RingZeroWritable(e: Entry): bool {
    e.present && e.writable
  }

  /** A page that is mapped is mapped to itself, with the page size in use. */
  predicate LeadsToItself(lowest: nat, e: Entry, a: nat)
    requires lowest <= 1
  {
    e.present ==> (e.large <==> lowest != 0) && e.addr == PageBase(lowest, a)
  }

  function Units(first: nat, count: nat): (s: set<nat>)
    ensures forall u :: u in s <==> first <= u < first + count
  {
    if count == 0 then {} else Units(first, count - 1) + {first + count - 1}
  }

  /** The page numbers of a range. */
  function PagesOf(lowest: nat, base: nat, size: nat): set<nat>
    requires lowest <= 1
  {
    Units(base / Coverage(lowest), size / Coverage(lowest))
  }

  // --- Owners and rings ------------------------------------------------------------

  ghost predicate OnOwnersRing(owner: map<nat, nat>, contents: map<nat, seq<nat>>, c: nat, u: nat) {
    u in Ring(contents, c) <==> c != NO_OWNER && OwnerOf(owner, u) == c
  }

  /** A unit is on the ring of exactly its owner. */
  ghost predicate RingsMatchOwners(owner: map<nat, nat>, contents: map<nat, seq<nat>>) {
    forall c: nat, u: nat {:trigger u in Ring(contents, c)} {:trigger OnOwnersRing(owner, contents, c, u)} ::
      OnOwnersRing(owner, contents, c, u)
  }

  /** Owner c for the units in [first, first + count), unchanged elsewhere. */
  ghost predicate OwnersSet(owner: map<nat, nat>, owner': map<nat, nat>, first: nat, count: nat, c: nat) {
    && (forall u: nat {:trigger OwnerOf(owner', u)} ::
          OwnerOf(owner', u) == if first <= u < first + count then c else OwnerOf(owner, u))
    && (c == NO_OWNER ==> forall u: nat :: u in owner ==> u in owner')
  }

  ghost predicate OwnedBy(owner: map<nat, nat>, first: nat, count: nat, c: nat) {
    forall u: nat {:trigger OwnerOf(owner, u)} :: first <= u < first + count ==> OwnerOf(owner, u) == c
  }

  lemma OwnerAdded(owner: map<nat, nat>, contents: map<nat, seq<nat>>, u: nat, c: nat)
    requires RingsMatchOwners(owner, contents) && OwnerOf(owner, u) == NO_OWNER && c != NO_OWNER
    ensures RingsMatchOwners(owner[u := c], contents[c := [u] + Ring(contents, c)])
  {
    var owner', contents' := owner[u := c], contents[c := [u] + Ring(contents, c)];
    forall d: nat, v: nat ensures OnOwnersRing(owner', contents', d, v) {
      assert OnOwnersRing(owner, contents, d, v);
    }
  }

  lemma OwnerRemoved(owner: map<nat, nat>, contents: map<nat, seq<nat>>, c: nat, k: nat)
    requires RingsMatchOwners(owner, contents) && k < |Ring(contents, c)| && NoDuplicates(Ring(contents, c))
    ensures RingsMatchOwners(owner[Ring(contents, c)[k] := NO_OWNER], contents[c := Delete(Ring(contents, c), k)])
  {
    var u := Ring(contents, c)[k];
    var owner', contents' := owner[u := NO_OWNER], contents[c := Delete(Ring(contents, c), k)];
    forall d: nat, v: nat ensures OnOwnersRing(owner', contents', d, v) {
      RingWithout(owner, contents, c, k, owner', contents', d, v);
    }
  }

  lemma RingWithout(owner: map<nat, nat>, contents: map<nat, seq<nat>>, c: nat, k: nat,
                    owner': map<nat, nat>, contents': map<nat, seq<nat>>, d: nat, v: nat)
    requires RingsMatchOwners(owner, contents) && k < |Ring(contents, c)| && NoDuplicates(Ring(contents, c))
    requires owner' == owner[Ring(contents, c)[k] := NO_OWNER]
    requires contents' == contents[c := Delete(Ring(contents, c), k)]
    ensures OnOwnersRing(owner', contents', d, v)
  {
    var u := Ring(contents, c)[k];
    DeleteIs(Ring(contents, c), k);
    assert u in Ring(contents, c) && OwnerOf(owner, u) == c;
    assert OnOwnersRing(owner, contents, d, v);
    if d == c {
      assert Ring(contents', d) == Delete(Ring(contents, c), k);
    } else {
      assert Ring(contents', d) == Ring(contents, d);
    }
  }

  lemma OwnersSetNext(owner: map<nat, nat>, owner': map<nat, nat>, first: nat, count: nat, c: nat)
    requires OwnersSet(owner, owner', first, count, c)
    ensures OwnersSet(owner, owner'[first + count := c], first, count + 1, c)
  {
    var owner'' := owner'[first + count := c];
    forall u: nat
      ensures OwnerOf(owner'', u) == if first <= u < first + count + 1 then c else OwnerOf(owner, u)
    {
      assert u != first + count ==> OwnerOf(owner'', u) == OwnerOf(owner', u);
    }
  }

  // --- The view --------------------------------------------------------------------

  /**
  The pages that a compartment's table maps beyond its units.  Readable are those that its predefined
  ranges let it read, and those it faulted in while nobody owned them; forced are those that its
  predefined ranges let ring 0 write.
  */
  datatype Extra = Extra(readable: set<nat>, forced: set<nat>)

  function Borrows(extra: Extra, page: nat): Extra {
    Extra(extra.readable + {page}, extra.forced - {page})
  }

  function Less(extra: Extra, pages: set<nat>): Extra {
    Extra(extra.readable - pages, extra.forced - pages)
  }

  datatype View = View(
    store: Store,
    place: map<nat, Place>,
    contents: map<nat, seq<nat>>,
    owner: map<nat, nat>,
    free: set<nat>,
    roots: map<nat, nat>,
    borrowed: map<nat, Extra>)

  /** An owned unit is not free, belongs to a live compartment and lies below 2^48. */
  ghost predicate UnitOk(lowest: nat, v: View, u: nat)
    requires lowest <= 1
  {
    OwnerOf(v.owner, u) != NO_OWNER ==>
      && u !in v.free
      && OwnerOf(v.owner, u) in v.roots
      && (u + 1) * UnitSize(lowest) <= ADDRESS_LIMIT
  }

  ghost predicate RootOk(kernelRoot: nat, v: View, c: nat)
    requires c in v.roots
  {
    && IsRoot(v.place, v.roots[c]) && !v.place[v.roots[c]].kernel && v.roots[c] != kernelRoot
    && c in v.borrowed
  }

  ghost predicate RootsOk(kernelRoot: nat, v: View) {
    && NO_OWNER !in v.roots
    && IsRoot(v.place, kernelRoot)
    && (forall c {:trigger RootOk(kernelRoot, v, c)} :: c in v.roots ==> RootOk(kernelRoot, v, c))
    && (forall c, d :: c in v.roots && d in v.roots && v.roots[c] == v.roots[d] ==> c == d)
  }

  /**
  Exactly the bytes of its units are writable for c; those and the readable pages are readable; ring 0
  can write those of its units and the forced pages; and what is mapped is mapped to itself.
  */
  ghost predicate AccessAt(
    lowest: nat, store: Store, root: nat, owner: map<nat, nat>, extra: Extra, c: nat, a: nat)
    requires lowest <= 1
  {
    var e, owned := Lookup(lowest, store, root, a), OwnerOf(owner, a / UnitSize(lowest)) == c;
    && (UserWritable(e) <==> owned)
    && (UserReadable(e) <==> owned || a / Coverage(lowest) in extra.readable)
    && (RingZeroWritable(e) <==> owned || a / Coverage(lowest) in extra.forced)
    && LeadsToItself(lowest, e, a)
  }

  ghost predicate AccessOk(lowest: nat, store: Store, root: nat, owner: map<nat, nat>, extra: Extra, c: nat)
    requires lowest <= 1
  {
    forall a: nat {:trigger AccessAt(lowest, store, root, owner, extra, c, a)} :: a < ADDRESS_LIMIT ==>
      AccessAt(lowest, store, root, owner, extra, c, a)
  }

  ghost predicate CompartmentOk(lowest: nat, v: View, c: nat)
    requires lowest <= 1 && c in v.roots && c in v.borrowed
  {
    AccessOk(lowest, v.store, v.roots[c], v.owner, v.borrowed[c], c)
  }

  ghost predicate ViewOk(lowest: nat, kernelRoot: nat, v: View)
    requires lowest <= 1
  {
    && RingsMatchOwners(v.owner, v.contents)
    && (forall u: nat {:trigger UnitOk(lowest, v, u)} :: UnitOk(lowest, v, u))
    && RootsOk(kernelRoot, v)
    && (forall c {:trigger CompartmentOk(lowest, v, c)} :: c in v.roots ==>
          c in v.borrowed && CompartmentOk(lowest, v, c))
  }

  lemma EmptyOk(lowest: nat, kernelRoot: nat, store: Store, place: map<nat, Place>, heap: set<nat>)
    requires lowest <= 1 && IsRoot(place, kernelRoot)
    ensures ViewOk(lowest, kernelRoot, View(store, place, map[], map[], heap, map[], map[]))
  {
    var v := View(store, place, map[], map[], heap, map[], map[]);
    forall u: nat ensures UnitOk(lowest, v, u) {
    }
    forall c: nat, u: nat ensures OnOwnersRing(v.owner, v.contents, c, u) {
    }
  }

  // --- Units and pages -------------------------------------------------------------

  /** Byte ranges made of whole units, seen as units and as pages. */
  lemma UnitRange(lowest: nat, base: nat, size: nat, a: nat)
    requires lowest <= 1 && base % UnitSize(lowest) == 0 && size % UnitSize(lowest) == 0
    ensures var unit := UnitSize(lowest);
            base <= a < base + size <==> base / unit <= a / unit < base / unit + size / unit
    ensures base % Coverage(lowest) == 0 && size % Coverage(lowest) == 0
    ensures base <= a < base + size <==> a / Coverage(lowest) in PagesOf(lowest, base, size)
  {
    Arith.RangeQuotient(base, size, a, UnitSize(lowest));
    UnitHoldsPages(lowest, base);
    UnitHoldsPages(lowest, size);
    Arith.RangeQuotient(base, size, a, Coverage(lowest));
  }

  lemma UnitHoldsPages(lowest: nat, x: nat)
    requires lowest <= 1 && x % UnitSize(lowest) == 0
    ensures x % Coverage(lowest) == 0
  {
    if lowest == 0 {
      var q := x / 0x4000;
      assert x == q * 0x4000;
      Arith.QuotientUnique(x, 0x1000, q * 4, 0);
    }
  }

  /** Addresses of one page lie in one unit. */
  lemma PageInUnit(lowest: nat, a: nat, b: nat)
    requires lowest <= 1 && a / Coverage(lowest) == b / Coverage(lowest)
    ensures a / UnitSize(lowest) == b / UnitSize(lowest)
  {
    if lowest == 0 {
      Arith.Requotient(a, 0x1000, 4);
      Arith.Requotient(b, 0x1000, 4);
    }
  }

  /** The page of an address, as a range. */
  lemma PageRange(lowest: nat, a: nat, b: nat)
    requires lowest <= 1
    ensures var page := PageBase(lowest, a);
            && page % Coverage(lowest) == 0
            && page <= a < page + Coverage(lowest)
            && (page <= b < page + Coverage(lowest) <==> b / Coverage(lowest) == a / Coverage(lowest))
  {
    var c := Coverage(lowest);
    var p, q := a / c, b / c;
    assert a == p * c + a % c && b == q * c + b % c;
    Arith.QuotientUnique(p * c, c, p, 0);
    if q < p { Arith.MulMonotone(q + 1, p, c); } else if q > p { Arith.MulMonotone(p + 1, q, c); }
  }

  lemma PageFits(lowest: nat, a: nat)
    requires lowest <= 1 && a < ADDRESS_LIMIT
    ensures PageBase(lowest, a) + Coverage(lowest) <= ADDRESS_LIMIT
  {
  }

  // --- What the operations do to the view ------------------------------------------

  /** The units of the range pass from the free set to c, with c's ring and page table. */
  ghost predicate Given(lowest: nat, v: View, v': View, c: nat, base: nat, size: nat)
    requires lowest <= 1 && c in v.roots
  {
    && Remapped(lowest, v.store, v.place, v'.store, v'.place, v.roots[c], base, size, Map(false, CompartmentWrite))
    && OwnersSet(v.owner, v'.owner, base / UnitSize(lowest), size / UnitSize(lowest), c)
    && RingsMatchOwners(v'.owner, v'.contents)
    && v'.free == v.free - Units(base / UnitSize(lowest), size / UnitSize(lowest))
    && v'.roots == v.roots && v'.borrowed == v.borrowed
  }

  /** The units of the range pass from c to the free set; what c had borrowed there is gone too. */
  ghost predicate Returned(lowest: nat, v: View, v': View, c: nat, base: nat, size: nat)
    requires lowest <= 1 && c in v.roots && c in v.borrowed
  {
    && Remapped(lowest, v.store, v.place, v'.store, v'.place, v.roots[c], base, size, Unmap)
    && OwnersSet(v.owner, v'.owner, base / UnitSize(lowest), size / UnitSize(lowest), NO_OWNER)
    && RingsMatchOwners(v'.owner, v'.contents)
    && v'.free == v.free + Units(base / UnitSize(lowest), size / UnitSize(lowest))
    && v'.roots == v.roots && v'.borrowed == v.borrowed[c := Less(v.borrowed[c], PagesOf(lowest, base, size))]
  }

  /** One page is mapped for c, with the right that its owner or a reader of unowned memory gets. */
  ghost predicate FaultedIn(lowest: nat, v: View, v': View, c: nat, a: nat)
    requires lowest <= 1 && c in v.roots && c in v.borrowed
  {
    var owned := OwnerOf(v.owner, a / UnitSize(lowest)) == c;
    && Remapped(lowest, v.store, v.place, v'.store, v'.place, v.roots[c], PageBase(lowest, a), Coverage(lowest),
                Map(false, if owned then CompartmentWrite else CompartmentRead))
    && v' == v.(store := v'.store, place := v'.place,
                borrowed := if owned then v.borrowed
                            else v.borrowed[c := Borrows(v.borrowed[c], a / Coverage(lowest))])
  }

  lemma RootsKept(lowest: nat, kernelRoot: nat, v: View, v': View, c: nat, base: nat, size: nat, change: Change)
    requires lowest <= 1 && RootsOk(kernelRoot, v) && c in v.roots && v'.roots == v.roots
    requires v'.borrowed.Keys == v.borrowed.Keys
    requires Remapped(lowest, v.store, v.place, v'.store, v'.place, v.roots[c], base, size, change)
    ensures RootsOk(kernelRoot, v')
  {
    forall d | d in v'.roots ensures RootOk(kernelRoot, v', d) {
      assert RootOk(kernelRoot, v, d);
    }
  }

  /** No table but the one of c changes. */
  lemma LookupAfter(lowest: nat, kernelRoot: nat, v: View, v': View, c: nat, base: nat, size: nat, change: Change,
                    d: nat, a: nat)
    requires lowest <= 1 && RootsOk(kernelRoot, v) && c in v.roots && d in v.roots && a < ADDRESS_LIMIT
    requires Remapped(lowest, v.store, v.place, v'.store, v'.place, v.roots[c], base, size, change)
    ensures Lookup(lowest, v'.store, v.roots[d], a) ==
            if d == c && base <= a < base + size then NewEntry(lowest, change, a)
            else Lookup(lowest, v.store, v.roots[d], a)
  {
    assert RootOk(kernelRoot, v, d);
  }

  lemma GivenAccess(lowest: nat, kernelRoot: nat, v: View, v': View, c: nat, base: nat, size: nat, d: nat)
    requires lowest <= 1 && ViewOk(lowest, kernelRoot, v) && c in v.roots && Given(lowest, v, v', c, base, size)
    requires base % UnitSize(lowest) == 0 && size % UnitSize(lowest) == 0
    requires OwnedBy(v.owner, base / UnitSize(lowest), size / UnitSize(lowest), NO_OWNER)
    requires d in v.roots
    ensures d in v'.borrowed && CompartmentOk(lowest, v', d)
  {
    assert RootOk(kernelRoot, v, d) && CompartmentOk(lowest, v, d);
    forall a: nat | a < ADDRESS_LIMIT
      ensures AccessAt(lowest, v'.store, v'.roots[d], v'.owner, v'.borrowed[d], d, a)
    {
      assert AccessAt(lowest, v.store, v.roots[d], v.owner, v.borrowed[d], d, a);
      LookupAfter(lowest, kernelRoot, v, v', c, base, size, Map(false, CompartmentWrite), d, a);
      UnitRange(lowest, base, size, a);
    }
  }

  lemma GivenOk(lowest: nat, kernelRoot: nat, v: View, v': View, c: nat, base: nat, size: nat)
    requires lowest <= 1 && ViewOk(lowest, kernelRoot, v) && c in v.roots && Given(lowest, v, v', c, base, size)
    requires base % UnitSize(lowest) == 0 && size % UnitSize(lowest) == 0 && base + size <= ADDRESS_LIMIT
    requires OwnedBy(v.owner, base / UnitSize(lowest), size / UnitSize(lowest), NO_OWNER)
    ensures ViewOk(lowest, kernelRoot, v')
  {
    RootsKept(lowest, kernelRoot, v, v', c, base, size, Map(false, CompartmentWrite));
    forall d | d in v'.roots ensures d in v'.borrowed && CompartmentOk(lowest, v', d) {
      GivenAccess(lowest, kernelRoot, v, v', c, base, size, d);
    }
    forall u: nat ensures UnitOk(lowest, v', u) {
      assert UnitOk(lowest, v, u);
      UnitBelow(lowest, base, size, u);
    }
  }

  lemma UnitBelow(lowest: nat, base: nat, size: nat, u: nat)
    requires lowest <= 1 && base % UnitSize(lowest) == 0 && size % UnitSize(lowest) == 0
    ensures u < base / UnitSize(lowest) + size / UnitSize(lowest) ==> (u + 1) * UnitSize(lowest) <= base + size
  {
    var unit := UnitSize(lowest);
    var n := base / unit + size / unit;
    assert base + size == n * unit;
    if u < n { Arith.MulMonotone(u + 1, n, unit); }
  }

  lemma ReturnedAccess(lowest: nat, kernelRoot: nat, v: View, v': View, c: nat, base: nat, size: nat, d: nat)
    requires lowest <= 1 && ViewOk(lowest, kernelRoot, v) && c in v.roots && c in v.borrowed
    requires Returned(lowest, v, v', c, base, size)
    requires base % UnitSize(lowest) == 0 && size % UnitSize(lowest) == 0
    requires OwnedBy(v.owner, base / UnitSize(lowest), size / UnitSize(lowest), c)
    requires d in v.roots
    ensures d in v'.borrowed && CompartmentOk(lowest, v', d)
  {
    assert RootOk(kernelRoot, v, d) && CompartmentOk(lowest, v, d);
    forall a: nat | a < ADDRESS_LIMIT
      ensures AccessAt(lowest, v'.store, v'.roots[d], v'.owner, v'.borrowed[d], d, a)
    {
      assert AccessAt(lowest, v.store, v.roots[d], v.owner, v.borrowed[d], d, a);
      LookupAfter(lowest, kernelRoot, v, v', c, base, size, Unmap, d, a);
      UnitRange(lowest, base, size, a);
    }
  }

  lemma ReturnedOk(lowest: nat, kernelRoot: nat, v: View, v': View, c: nat, base: nat, size: nat)
    requires lowest <= 1 && ViewOk(lowest, kernelRoot, v) && c in v.roots && c in v.borrowed
    requires Returned(lowest, v, v', c, base, size)
    requires base % UnitSize(lowest) == 0 && size % UnitSize(lowest) == 0
    requires OwnedBy(v.owner, base / UnitSize(lowest), size / UnitSize(lowest), c)
    ensures ViewOk(lowest, kernelRoot, v')
  {
    RootsKept(lowest, kernelRoot, v, v', c, base, size, Unmap);
    forall d | d in v'.roots ensures d in v'.borrowed && CompartmentOk(lowest, v', d) {
      ReturnedAccess(lowest, kernelRoot, v, v', c, base, size, d);
    }
    forall u: nat ensures UnitOk(lowest, v', u) {
      assert UnitOk(lowest, v, u);
    }
  }

  lemma FaultedAccess(lowest: nat, kernelRoot: nat, v: View, v': View, c: nat, a: nat, d: nat)
    requires lowest <= 1 && ViewOk(lowest, kernelRoot, v) && c in v.roots && c in v.borrowed
    requires FaultedIn(lowest, v, v', c, a) && d in v.roots
    ensures d in v'.borrowed && CompartmentOk(lowest, v', d)
  {
    assert RootOk(kernelRoot, v, d) && CompartmentOk(lowest, v, d);
    var change := Map(false, if OwnerOf(v.owner, a / UnitSize(lowest)) == c then CompartmentWrite else CompartmentRead);
    forall b: nat | b < ADDRESS_LIMIT
      ensures AccessAt(lowest, v'.store, v'.roots[d], v'.owner, v'.borrowed[d], d, b)
    {
      assert AccessAt(lowest, v.store, v.roots[d], v.owner, v.borrowed[d], d, b);
      LookupAfter(lowest, kernelRoot, v, v', c, PageBase(lowest, a), Coverage(lowest), change, d, b);
      PageRange(lowest, a, b);
      if b / Coverage(lowest) == a / Coverage(lowest) { PageInUnit(lowest, a, b); }
    }
  }

  lemma FaultedOk(lowest: nat, kernelRoot: nat, v: View, v': View, c: nat, a: nat)
    requires lowest <= 1 && ViewOk(lowest, kernelRoot, v) && c in v.roots && c in v.borrowed
    requires FaultedIn(lowest, v, v', c, a)
    ensures ViewOk(lowest, kernelRoot, v')
  {
    RootsKept(lowest, kernelRoot, v, v', c, PageBase(lowest, a), Coverage(lowest),
              Map(false, if OwnerOf(v.owner, a / UnitSize(lowest)) == c then CompartmentWrite else CompartmentRead));
    forall d | d in v'.roots ensures d in v'.borrowed && CompartmentOk(lowest, v', d) {
      FaultedAccess(lowest, kernelRoot, v, v', c, a, d);
    }
    forall u: nat ensures UnitOk(lowest, v', u) {
      assert UnitOk(lowest, v, u);
    }
  }

  /** Memory that no compartment owns goes from or to the free set. */
  lemma FreeChangedOk(lowest: nat, kernelRoot: nat, v: View, free: set<nat>)
    requires lowest <= 1 && ViewOk(lowest, kernelRoot, v)
    requires forall u: nat :: u in free && u !in v.free ==> OwnerOf(v.owner, u) == NO_OWNER
    ensures ViewOk(lowest, kernelRoot, v.(free := free))
  {
    var v' := v.(free := free);
    forall u: nat ensures UnitOk(lowest, v', u) {
      assert UnitOk(lowest, v, u);
    }
    forall c | c in v'.roots ensures c in v'.borrowed && CompartmentOk(lowest, v', c) {
      assert RootOk(kernelRoot, v, c) && CompartmentOk(lowest, v, c);
    }
    forall c | c in v'.roots ensures RootOk(kernelRoot, v', c) {
      assert RootOk(kernelRoot, v, c);
    }
  }

  // --- Compartments come and go ----------------------------------------------------

  datatype Range = Range(base: nat, size: nat, perm: Permission)

  /** A predefined range is made of whole pages and does not grant user writes. */
  predicate PredefinedOk(lowest: nat, r: Range)
    requires lowest <= 1
  {
    && r.perm != CompartmentWrite
    && r.base % Coverage(lowest) == 0
    && r.size % Coverage(lowest) == 0
    && r.base + r.size <= ADDRESS_LIMIT
  }

  /** The entry that the predefined ranges leave for an address: the last range that covers it decides. */
  ghost function PredefinedEntry(lowest: nat, predefined: seq<Range>, a: nat): Entry
    requires lowest <= 1
  {
    if predefined == [] then EMPTY else
      var r := predefined[|predefined| - 1];
      if r.base <= a < r.base + r.size then NewEntry(lowest, Map(false, r.perm), a)
      else PredefinedEntry(lowest, predefined[..|predefined| - 1], a)
  }

  ghost predicate PredefinedReadable(lowest: nat, predefined: seq<Range>, page: nat)
    requires lowest <= 1
  {
    UserReadable(PredefinedEntry(lowest, predefined, page * Coverage(lowest)))
  }

  ghost predicate PredefinedForced(lowest: nat, predefined: seq<Range>, page: nat)
    requires lowest <= 1
  {
    RingZeroWritable(PredefinedEntry(lowest, predefined, page * Coverage(lowest)))
  }

  ghost function PredefinedPages(lowest: nat, predefined: seq<Range>): Extra
    requires lowest <= 1
  {
    Extra(set page: nat | page < 0x10_0000_0000 && PredefinedReadable(lowest, predefined, page),
          set page: nat | page < 0x10_0000_0000 && PredefinedForced(lowest, predefined, page))
  }

  lemma {:induction false} PredefinedAccess(lowest: nat, predefined: seq<Range>, a: nat)
    requires lowest <= 1 && forall i :: 0 <= i < |predefined| ==> PredefinedOk(lowest, predefined[i])
    ensures !UserWritable(PredefinedEntry(lowest, predefined, a))
    ensures LeadsToItself(lowest, PredefinedEntry(lowest, predefined, a), a)
    ensures UserReadable(PredefinedEntry(lowest, predefined, a)) <==>
            PredefinedReadable(lowest, predefined, a / Coverage(lowest))
    ensures RingZeroWritable(PredefinedEntry(lowest, predefined, a)) <==>
            PredefinedForced(lowest, predefined, a / Coverage(lowest))
  {
    if predefined != [] {
      var r := predefined[|predefined| - 1];
      PredefinedAccess(lowest, predefined[..|predefined| - 1], a);
      assert PredefinedOk(lowest, r);
      Arith.RangeQuotient(r.base, r.size, a, Coverage(lowest));
      Arith.QuotientUnique(a / Coverage(lowest) * Coverage(lowest), Coverage(lowest), a / Coverage(lowest), 0);
      Arith.RangeQuotient(r.base, r.size, a / Coverage(lowest) * Coverage(lowest), Coverage(lowest));
    }
  }

  /** Every table keeps its kind and its lookups. */
  ghost predicate TablesKept(lowest: nat, store: Store, place: map<nat, Place>,
                             store': Store, place': map<nat, Place>, r: nat)
    requires lowest <= 1
  {
    && IsRoot(place, r) && IsRoot(place', r) && place'[r] == place[r]
    && forall a: nat {:trigger Lookup(lowest, store', r, a)} :: a < ADDRESS_LIMIT ==>
         Lookup(lowest, store', r, a) == Lookup(lowest, store, r, a)
  }

  /** A new table at root holds exactly the predefined ranges; all other tables are as before. */
  ghost predicate TableCreated(lowest: nat, store: Store, place: map<nat, Place>,
                               store': Store, place': map<nat, Place>,
                               root: nat, predefined: seq<Range>)
    requires lowest <= 1
  {
    && IsRoot(place', root) && !place'[root].kernel && !IsRoot(place, root)
    && (forall r {:trigger TablesKept(lowest, store, place, store', place', r)} :: IsRoot(place, r) ==>
          TablesKept(lowest, store, place, store', place', r))
    && (forall a: nat {:trigger Lookup(lowest, store', root, a)} :: a < ADDRESS_LIMIT ==>
          Lookup(lowest, store', root, a) == PredefinedEntry(lowest, predefined, a))
  }

  lemma TableExtended(lowest: nat, store: Store, place: map<nat, Place>, store': Store, place': map<nat, Place>,
                      store'': Store, place'': map<nat, Place>, root: nat, predefined: seq<Range>, i: nat)
    requires lowest <= 1 && i < |predefined|
    requires TableCreated(lowest, store, place, store', place', root, predefined[..i])
    requires Remapped(lowest, store', place', store'', place'', root, predefined[i].base, predefined[i].size,
                      Map(false, predefined[i].perm))
    ensures TableCreated(lowest, store, place, store'', place'', root, predefined[..i + 1])
  {
    var before, after := predefined[..i], predefined[..i + 1];
    assert after[..|after| - 1] == before && after[|after| - 1] == predefined[i];
    forall r | IsRoot(place, r) ensures TablesKept(lowest, store, place, store'', place'', r) {
      assert TablesKept(lowest, store, place, store', place', r);
    }
    forall a: nat | a < ADDRESS_LIMIT
      ensures Lookup(lowest, store'', root, a) == PredefinedEntry(lowest, after, a)
    {
      assert Lookup(lowest, store', root, a) == PredefinedEntry(lowest, before, a);
    }
  }

  ghost predicate Created(lowest: nat, v: View, v': View, c: nat, root: nat, predefined: seq<Range>)
    requires lowest <= 1
  {
    && c != NO_OWNER && c !in v.roots
    && TableCreated(lowest, v.store, v.place, v'.store, v'.place, root, predefined)
    && v' == v.(store := v'.store, place := v'.place, roots := v.roots[c := root],
                borrowed := v.borrowed[c := PredefinedPages(lowest, predefined)])
  }

  lemma CreatedAccess(lowest: nat, kernelRoot: nat, v: View, v': View, c: nat, root: nat, predefined: seq<Range>,
                      d: nat)
    requires lowest <= 1 && ViewOk(lowest, kernelRoot, v) && Created(lowest, v, v', c, root, predefined)
    requires forall i :: 0 <= i < |predefined| ==> PredefinedOk(lowest, predefined[i])
    requires d in v'.roots
    ensures d in v'.borrowed && RootOk(kernelRoot, v', d) && CompartmentOk(lowest, v', d)
  {
    assert TablesKept(lowest, v.store, v.place, v'.store, v'.place, kernelRoot);
    if d != c {
      assert RootOk(kernelRoot, v, d) && CompartmentOk(lowest, v, d);
      assert TablesKept(lowest, v.store, v.place, v'.store, v'.place, v.roots[d]);
      forall a: nat | a < ADDRESS_LIMIT
        ensures AccessAt(lowest, v'.store, v'.roots[d], v'.owner, v'.borrowed[d], d, a)
      {
        assert AccessAt(lowest, v.store, v.roots[d], v.owner, v.borrowed[d], d, a);
      }
    } else {
      forall a: nat | a < ADDRESS_LIMIT
        ensures AccessAt(lowest, v'.store, v'.roots[d], v'.owner, v'.borrowed[d], d, a)
      {
        PredefinedAccess(lowest, predefined, a);
        assert UnitOk(lowest, v, a / UnitSize(lowest));
        PageNumberBound(lowest, a);
      }
    }
  }

  lemma PageNumberBound(lowest: nat, a: nat)
    requires lowest <= 1 && a < ADDRESS_LIMIT
    ensures a / Coverage(lowest) < 0x10_0000_0000
  {
  }

  lemma CreatedOk(lowest: nat, kernelRoot: nat, v: View, v': View, c: nat, root: nat, predefined: seq<Range>)
    requires lowest <= 1 && ViewOk(lowest, kernelRoot, v) && Created(lowest, v, v', c, root, predefined)
    requires forall i :: 0 <= i < |predefined| ==> PredefinedOk(lowest, predefined[i])
    ensures ViewOk(lowest, kernelRoot, v')
  {
    assert TablesKept(lowest, v.store, v.place, v'.store, v'.place, kernelRoot);
    forall d | d in v'.roots ensures d in v'.borrowed && RootOk(kernelRoot, v', d) && CompartmentOk(lowest, v', d) {
      CreatedAccess(lowest, kernelRoot, v, v', c, root, predefined, d);
    }
    forall d, e | d in v'.roots && e in v'.roots && v'.roots[d] == v'.roots[e] ensures d == e {
      if d != c { assert RootOk(kernelRoot, v, d); }
      if e != c { assert RootOk(kernelRoot, v, e); }
    }
    forall u: nat ensures UnitOk(lowest, v', u) {
      assert UnitOk(lowest, v, u);
    }
  }

  /** The table of c is gone, and c with it; the other tables are as before. */
  ghost predicate Dropped(lowest: nat, v: View, v': View, c: nat)
    requires lowest <= 1 && c in v.roots
  {
    && (forall r {:trigger TablesKept(lowest, v.store, v.place, v'.store, v'.place, r)} ::
          IsRoot(v.place, r) && r != v.roots[c] ==> TablesKept(lowest, v.store, v.place, v'.store, v'.place, r))
    && v' == v.(store := v'.store, place := v'.place, roots := v.roots - {c}, borrowed := v.borrowed - {c})
  }

  lemma DroppedOk(lowest: nat, kernelRoot: nat, v: View, v': View, c: nat)
    requires lowest <= 1 && ViewOk(lowest, kernelRoot, v) && c in v.roots && Dropped(lowest, v, v', c)
    requires forall u: nat {:trigger OwnerOf(v.owner, u)} :: OwnerOf(v.owner, u) != c
    ensures ViewOk(lowest, kernelRoot, v')
  {
    assert RootOk(kernelRoot, v, c);
    assert TablesKept(lowest, v.store, v.place, v'.store, v'.place, kernelRoot);
    forall d | d in v'.roots ensures d in v'.borrowed && RootOk(kernelRoot, v', d) && CompartmentOk(lowest, v', d) {
      assert RootOk(kernelRoot, v, d) && CompartmentOk(lowest, v, d);
      assert TablesKept(lowest, v.store, v.place, v'.store, v'.place, v.roots[d]);
      forall a: nat | a < ADDRESS_LIMIT
        ensures AccessAt(lowest, v'.store, v'.roots[d], v'.owner, v'.borrowed[d], d, a)
      {
        assert AccessAt(lowest, v.store, v.roots[d], v.owner, v.borrowed[d], d, a);
      }
    }
    forall u: nat ensures UnitOk(lowest, v', u) {
      assert UnitOk(lowest, v, u);
    }
  }

  // --- A compartment returns all it has --------------------------------------------

  function UnitOfPage(lowest: nat, page: nat): nat
    requires lowest <= 1
  {
    if lowest == 0 then page / 4 else page
  }

  function SetOf(s: seq<nat>): set<nat> {
    set u | u in s
  }

  ghost predicate OwnersCleared(owner: map<nat, nat>, owner': map<nat, nat>, visited: seq<nat>) {
    forall u: nat {:trigger OwnerOf(owner', u)} ::
      OwnerOf(owner', u) == if u in visited then NO_OWNER else OwnerOf(owner, u)
  }

  /** The pages of the visited units are unmapped in the table of c; nothing else changes in any table. */
  ghost predicate Unmapped(lowest: nat, store: Store, place: map<nat, Place>, store': Store, place': map<nat, Place>,
                           root: nat, visited: seq<nat>)
    requires lowest <= 1
  {
    && (forall r :: IsRoot(place', r) <==> IsRoot(place, r))
    && (forall r :: IsRoot(place, r) ==> place'[r] == place[r])
    && (forall r: nat, a: nat {:trigger Lookup(lowest, store', r, a)} :: IsRoot(place, r) && a < ADDRESS_LIMIT ==>
          Lookup(lowest, store', r, a) ==
            if r == root && a / UnitSize(lowest) in visited then EMPTY else Lookup(lowest, store, r, a))
  }

  /** What c's table mapped beyond its units is gone where the visited units are. */
  ghost predicate BorrowedLess(lowest: nat, borrowed: map<nat, Extra>, borrowed': map<nat, Extra>, c: nat,
                               visited: seq<nat>)
    requires lowest <= 1 && c in borrowed
  {
    && c in borrowed' && borrowed' == borrowed[c := borrowed'[c]]
    && (forall page :: page in borrowed'[c].readable <==>
          page in borrowed[c].readable && UnitOfPage(lowest, page) !in visited)
    && (forall page :: page in borrowed'[c].forced <==>
          page in borrowed[c].forced && UnitOfPage(lowest, page) !in visited)
  }

  /** The visited units of c are back in the free set. */
  ghost predicate Cleared(lowest: nat, v: View, v': View, c: nat, visited: seq<nat>)
    requires lowest <= 1 && c in v.roots && c in v.borrowed
  {
    && Unmapped(lowest, v.store, v.place, v'.store, v'.place, v.roots[c], visited)
    && OwnersCleared(v.owner, v'.owner, visited)
    && v'.free == v.free + SetOf(visited)
    && v'.roots == v.roots
    && BorrowedLess(lowest, v.borrowed, v'.borrowed, c, visited)
  }

  lemma UnmappedNext(lowest: nat, store: Store, place: map<nat, Place>, store': Store, place': map<nat, Place>,
                     store'': Store, place'': map<nat, Place>, root: nat, visited: seq<nat>, u: nat)
    requires lowest <= 1 && Unmapped(lowest, store, place, store', place', root, visited)
    requires Remapped(lowest, store', place', store'', place'', root, u * UnitSize(lowest), UnitSize(lowest), Unmap)
    ensures Unmapped(lowest, store, place, store'', place'', root, visited + [u])
  {
    forall r: nat, a: nat | IsRoot(place, r) && a < ADDRESS_LIMIT
      ensures Lookup(lowest, store'', r, a) ==
              if r == root && a / UnitSize(lowest) in visited + [u] then EMPTY else Lookup(lowest, store, r, a)
    {
      OneUnit(lowest, u, a);
      assert Lookup(lowest, store', r, a) ==
             if r == root && a / UnitSize(lowest) in visited then EMPTY else Lookup(lowest, store, r, a);
    }
  }

  /** One unit, seen as a byte range and as pages. */
  lemma OneUnit(lowest: nat, u: nat, a: nat)
    requires lowest <= 1
    ensures var unit := UnitSize(lowest);
            && (u * unit) % unit == 0 && (u * unit) / unit == u && unit % unit == 0 && unit / unit == 1
            && (u * unit <= a < u * unit + unit <==> a / unit == u)
  {
    var unit := UnitSize(lowest);
    Arith.QuotientUnique(u * unit, unit, u, 0);
    Arith.RangeQuotient(u * unit, unit, a, unit);
  }

  lemma UnitPages(lowest: nat, u: nat, page: nat)
    requires lowest <= 1
    ensures page in PagesOf(lowest, u * UnitSize(lowest), UnitSize(lowest)) <==> UnitOfPage(lowest, page) == u
  {
    if lowest == 0 {
      Arith.QuotientUnique(u * 0x4000, 0x1000, u * 4, 0);
    } else {
      Arith.QuotientUnique(u * 0x20_0000, 0x20_0000, u, 0);
    }
  }

  lemma ClearedNext(lowest: nat, v: View, v': View, v'': View, c: nat, visited: seq<nat>, u: nat)
    requires lowest <= 1 && c in v.roots && c in v.borrowed && Cleared(lowest, v, v', c, visited)
    requires Returned(lowest, v', v'', c, u * UnitSize(lowest), UnitSize(lowest))
    ensures Cleared(lowest, v, v'', c, visited + [u])
  {
    UnmappedNext(lowest, v.store, v.place, v'.store, v'.place, v''.store, v''.place, v.roots[c], visited, u);
    OneUnit(lowest, u, 0);
    assert OwnersCleared(v.owner, v''.owner, visited + [u]);
    assert Units(u, 1) == {u};
    assert SetOf(visited + [u]) == SetOf(visited) + {u};
    forall page: nat
      ensures page in v''.borrowed[c].readable <==>
              page in v.borrowed[c].readable && UnitOfPage(lowest, page) !in visited + [u]
      ensures page in v''.borrowed[c].forced <==>
              page in v.borrowed[c].forced && UnitOfPage(lowest, page) !in visited + [u]
    {
      UnitPages(lowest, u, page);
    }
  }
}
