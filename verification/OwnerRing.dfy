/**
The intrusive cyclic doubly linked lists of MonzaCompartmentOwnership::List
(guest-verona-rt/include/public/snmalloc/snmalloc.h): one head per compartment,
one entry per memory unit, links overwritten in place.
*/
module OwnerRing {
  import opened Sequences

  /** A Base pointer: null, the head of a compartment's list, or the entry of a memory unit. */
  datatype Ref = Null | Head(c: nat) | Unit(u: nat)

  /** Pointers that were never written are null. */
  function Follow(links: map<Ref, Ref>, r: Ref): Ref {
    if r in links then links[r] else Null
  }

  /** The i-th element met when following next from the head; it comes round to the head again. */
  function At(c: nat, s: seq<nat>, i: nat): Ref {
    if 1 <= i <= |s| then Unit(s[i - 1]) else Head(c)
  }

  ghost predicate Linked(next: map<Ref, Ref>, prev: map<Ref, Ref>, p: Ref, n: Ref) {
    Follow(next, p) == n && Follow(prev, n) == p
  }

  ghost predicate LinkedAt(next: map<Ref, Ref>, prev: map<Ref, Ref>, c: nat, s: seq<nat>, i: nat) {
    Linked(next, prev, At(c, s, i), At(c, s, i + 1))
  }

  /** The ring of c holds exactly the units s in this order, or its head is not yet initialised. */
  ghost predicate RingIs(next: map<Ref, Ref>, prev: map<Ref, Ref>, c: nat, s: seq<nat>) {
    if Follow(next, Head(c)) == Null then s == []
    else forall i: nat {:trigger LinkedAt(next, prev, c, s, i)} :: i <= |s| ==> LinkedAt(next, prev, c, s, i)
  }

  ghost predicate InRing(c: nat, s: seq<nat>, r: Ref) {
    r == Head(c) || (r.Unit? && r.u in s)
  }

  /** A ring is untouched by writes to links of other elements. */
  lemma RingFrame(
    next: map<Ref, Ref>, prev: map<Ref, Ref>, next': map<Ref, Ref>, prev': map<Ref, Ref>, c: nat, s: seq<nat>)
    requires RingIs(next, prev, c, s)
    requires forall r :: InRing(c, s, r) ==> Follow(next', r) == Follow(next, r) && Follow(prev', r) == Follow(prev, r)
    ensures RingIs(next', prev', c, s)
  {
    assert InRing(c, s, Head(c));
    if Follow(next, Head(c)) != Null {
      forall i: nat | i <= |s|
        ensures LinkedAt(next', prev', c, s, i)
      {
        assert LinkedAt(next, prev, c, s, i);
        assert InRing(c, s, At(c, s, i)) && InRing(c, s, At(c, s, i + 1));
      }
    }
  }

  /** Head::add on an initialised head puts the entry first. */
  lemma AddFirst(
    next: map<Ref, Ref>, prev: map<Ref, Ref>, next': map<Ref, Ref>, prev': map<Ref, Ref>, c: nat, s: seq<nat>, u: nat)
    requires RingIs(next, prev, c, s) && Follow(next, Head(c)) != Null && u !in s
    requires var n := Follow(next, Head(c));
             && prev' == prev[Unit(u) := Head(c)][n := Unit(u)]
             && next' == next[Unit(u) := n][Head(c) := Unit(u)]
    ensures RingIs(next', prev', c, [u] + s)
  {
    var t, n := [u] + s, Follow(next, Head(c));
    assert LinkedAt(next, prev, c, s, 0) && n == At(c, s, 1);
    assert InRing(c, s, n);
    forall i: nat | i <= |t|
      ensures LinkedAt(next', prev', c, t, i)
    {
      if i == 0 {
        assert At(c, t, 0) == Head(c) && At(c, t, 1) == Unit(u);
      } else if i == 1 {
        assert At(c, t, 1) == Unit(u) && At(c, t, 2) == n;
      } else {
        assert At(c, t, i) == At(c, s, i - 1) && At(c, t, i + 1) == At(c, s, i);
        assert LinkedAt(next, prev, c, s, i - 1);
        assert Follow(prev, n) == Head(c) != At(c, s, i - 1);
      }
    }
  }

  /** Entry::remove bypasses the entry; the entry's own stale links no longer matter. */
  lemma RemoveAt(
    next: map<Ref, Ref>, prev: map<Ref, Ref>, next': map<Ref, Ref>, prev': map<Ref, Ref>, c: nat, s: seq<nat>, k: nat)
    requires RingIs(next, prev, c, s) && k < |s| && NoDuplicates(s)
    requires var e := Unit(s[k]);
             && prev' == prev[Follow(next, e) := Follow(prev, e)]
             && next' == next[Follow(prev, e) := Follow(next, e)]
    ensures RingIs(next', prev', c, Delete(s, k))
  {
    var t := Delete(s, k);
    assert LinkedAt(next, prev, c, s, 0);
    assert LinkedAt(next, prev, c, s, k);
    assert LinkedAt(next, prev, c, s, k + 1);
    forall i: nat | i <= |t|
      ensures LinkedAt(next', prev', c, t, i)
    {
      if i < k {
        assert At(c, t, i) == At(c, s, i) && At(c, t, i + 1) == At(c, s, i + 1);
        assert LinkedAt(next, prev, c, s, i);
      } else if i == k {
        assert At(c, t, i) == At(c, s, k) && At(c, t, i + 1) == At(c, s, k + 2);
      } else {
        assert At(c, t, i) == At(c, s, i + 1) && At(c, t, i + 1) == At(c, s, i + 2);
        assert LinkedAt(next, prev, c, s, i + 1);
      }
    }
  }

  /** The units on the list of c, in order. */
  function Ring(contents: map<nat, seq<nat>>, c: nat): seq<nat> {
    if c in contents then contents[c] else []
  }

  ghost predicate RingOk(next: map<Ref, Ref>, prev: map<Ref, Ref>, contents: map<nat, seq<nat>>, c: nat) {
    RingIs(next, prev, c, Ring(contents, c)) && NoDuplicates(Ring(contents, c))
  }

  ghost predicate OnBoth(contents: map<nat, seq<nat>>, c: nat, d: nat, u: nat) {
    u in Ring(contents, c) && u in Ring(contents, d)
  }

  /** Every list is a well-formed ring and no unit is on two of them. */
  ghost predicate RingsOk(next: map<Ref, Ref>, prev: map<Ref, Ref>, contents: map<nat, seq<nat>>) {
    && (forall c {:trigger RingOk(next, prev, contents, c)} :: RingOk(next, prev, contents, c))
    && (forall c, d, u {:trigger OnBoth(contents, c, d, u)} :: OnBoth(contents, c, d, u) ==> c == d)
  }

  /** Relinking elements of c's list, or of no list, leaves the other lists alone. */
  lemma OthersOk(
    next: map<Ref, Ref>, prev: map<Ref, Ref>, next': map<Ref, Ref>, prev': map<Ref, Ref>,
    contents: map<nat, seq<nat>>, s': seq<nat>, c: nat, touched: set<Ref>, d: nat)
    requires RingsOk(next, prev, contents) && d != c
    requires forall r :: r in touched ==> !InRing(d, Ring(contents, d), r)
    requires forall r :: r !in touched ==> Follow(next', r) == Follow(next, r) && Follow(prev', r) == Follow(prev, r)
    ensures RingOk(next', prev', contents[c := s'], d)
  {
    assert RingOk(next, prev, contents, d);
    RingFrame(next, prev, next', prev', d, Ring(contents, d));
  }

  lemma NotInOther(next: map<Ref, Ref>, prev: map<Ref, Ref>, contents: map<nat, seq<nat>>, c: nat, d: nat, r: Ref)
    requires RingsOk(next, prev, contents) && d != c && InRing(c, Ring(contents, c), r)
    ensures !InRing(d, Ring(contents, d), r)
  {
    assert r.Unit? ==> !OnBoth(contents, c, d, r.u);
  }

  lemma AddKeepsRings(
    next: map<Ref, Ref>, prev: map<Ref, Ref>, next': map<Ref, Ref>, prev': map<Ref, Ref>,
    contents: map<nat, seq<nat>>, c: nat, u: nat)
    requires RingsOk(next, prev, contents) && Follow(next, Head(c)) != Null
    requires forall d :: u !in Ring(contents, d)
    requires var n := Follow(next, Head(c));
             && prev' == prev[Unit(u) := Head(c)][n := Unit(u)]
             && next' == next[Unit(u) := n][Head(c) := Unit(u)]
    ensures RingsOk(next', prev', contents[c := [u] + Ring(contents, c)])
  {
    var s, n, contents' := Ring(contents, c), Follow(next, Head(c)), contents[c := [u] + Ring(contents, c)];
    assert RingOk(next, prev, contents, c);
    assert LinkedAt(next, prev, c, s, 0) && n == At(c, s, 1) && InRing(c, s, n);
    AddFirst(next, prev, next', prev', c, s, u);
    forall d
      ensures RingOk(next', prev', contents', d)
    {
      if d != c {
        NotInOther(next, prev, contents, c, d, n);
        OthersOk(next, prev, next', prev', contents, [u] + s, c, {Unit(u), n, Head(c)}, d);
      }
    }
    forall d, e, x | OnBoth(contents', d, e, x)
      ensures d == e
    {
      if x == u {
        assert u !in Ring(contents, d) && u !in Ring(contents, e);
      } else {
        assert OnBoth(contents, d, e, x);
      }
    }
  }

  lemma RemoveKeepsRings(
    next: map<Ref, Ref>, prev: map<Ref, Ref>, next': map<Ref, Ref>, prev': map<Ref, Ref>,
    contents: map<nat, seq<nat>>, c: nat, k: nat)
    requires RingsOk(next, prev, contents) && k < |Ring(contents, c)|
    requires var e := Unit(Ring(contents, c)[k]);
             && prev' == prev[Follow(next, e) := Follow(prev, e)]
             && next' == next[Follow(prev, e) := Follow(next, e)]
    ensures RingsOk(next', prev', contents[c := Delete(Ring(contents, c), k)])
    ensures Follow(next, Unit(Ring(contents, c)[k])) != Null
  {
    var s := Ring(contents, c);
    var contents' := contents[c := Delete(s, k)];
    assert RingOk(next, prev, contents, c);
    var n, p := At(c, s, k + 2), At(c, s, k);
    assert RingIs(next, prev, c, s) && LinkedAt(next, prev, c, s, k) && LinkedAt(next, prev, c, s, k + 1);
    RemoveAt(next, prev, next', prev', c, s, k);
    forall d
      ensures RingOk(next', prev', contents', d)
    {
      if d != c {
        NotInOther(next, prev, contents, c, d, n);
        NotInOther(next, prev, contents, c, d, p);
        OthersOk(next, prev, next', prev', contents, Delete(s, k), c, {n, p}, d);
      }
    }
    forall d, e, x | OnBoth(contents', d, e, x)
      ensures d == e
    {
      assert OnBoth(contents, d, e, x);
    }
  }

  /** All lists, indexed by compartment; the ghost contents give each list's order. */
  class Lists {
    var next: map<Ref, Ref>
    var prev: map<Ref, Ref>
    ghost var contents: map<nat, seq<nat>>

    ghost predicate Valid()
      reads this
    {
      RingsOk(next, prev, contents)
    }

    constructor ()
      ensures Valid() && contents == map[]
    {
      next, prev, contents := map[], map[], map[];
    }

    method LazyInit(c: nat)
      requires Valid()
      modifies this`next, this`prev
      ensures Valid()
      ensures Follow(next, Head(c)) != Null
    {
      assert RingOk(next, prev, contents, c);
      if Follow(next, Head(c)) == Null {
        next := next[Head(c) := Head(c)];
        prev := prev[Head(c) := Head(c)];
        forall d
          ensures RingOk(next, prev, contents, d)
        {
          assert RingOk(old(next), old(prev), contents, d);
          if d != c {
            RingFrame(old(next), old(prev), next, prev, d, Ring(contents, d));
          }
        }
      }
    }

    /** Head::add */
    method Add(c: nat, u: nat)
      requires Valid() && forall d :: u !in Ring(contents, d)
      modifies this
      ensures Valid()
      ensures contents == old(contents)[c := [u] + Ring(old(contents), c)]
    {
      LazyInit(c);
      ghost var next0, prev0 := next, prev;
      var n := Follow(next, Head(c));
      prev := prev[Unit(u) := Head(c)];
      next := next[Unit(u) := n];
      prev := prev[n := Unit(u)];
      next := next[Head(c) := Unit(u)];
      AddKeepsRings(next0, prev0, next, prev, contents, c, u);
      contents := contents[c := [u] + Ring(contents, c)];
    }

    /** Entry::remove of the unit at position k of its list. */
    method Remove(u: nat, ghost c: nat, ghost k: nat)
      requires Valid() && k < |Ring(contents, c)| && Ring(contents, c)[k] == u
      modifies this
      ensures Valid()
      ensures contents == old(contents)[c := Delete(Ring(old(contents), c), k)]
    {
      var n, p := Follow(next, Unit(u)), Follow(prev, Unit(u));
      RemoveKeepsRings(next, prev, next[p := n], prev[n := p], contents, c, k);
      if n != Null {
        prev := prev[n := p];
        next := next[p := n];
        contents := contents[c := Delete(Ring(contents, c), k)];
      }
    }
  }
}
