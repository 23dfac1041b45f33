/**
The operations of guest-verona-rt/arch/x86_64/pagetable.cc on a store of table
nodes: the recursive loops over address ranges and the wrappers around them.
*/
module PageTable {
  import opened Common
  import opened Arith
  import opened Paging

  class TableMemory {
    const lowest: nat
    var store: Store
    var freed: seq<nat>
    var kernelRoot: nat
    ghost var place: map<nat, Place>

    ghost predicate Valid()
      reads this
    {
      lowest <= 1 && WellFormed(lowest, store, place)
    }

    constructor (largePages: bool)
      ensures Valid() && store == map[] && place == map[] && freed == []
      ensures lowest == if largePages then 1 else 0
    {
      lowest := if largePages then 1 else 0;
      store, freed, kernelRoot, place := map[], [], 0, map[];
    }

    /** The child below entry i, allocating a zeroed node for it when the entry is null. */
    method LinkChild(n: nat, level: nat, i: nat, kernel: bool, persistent: bool, ghost lo: nat)
      returns (child: nat)
      requires Valid() && n in place && place[n].kernel == kernel
      requires lowest < level && StartsAt(place[n].path, level, lo) && i < ENTRY_COUNT
      requires persistent ==> level == TOP_LEVEL
      modifies this`store, this`place
      ensures Valid()
      ensures ChangedBelow(old(store), old(place), store, place, old(place)[n].root, old(place)[n].path)
      ensures n in place && place[n] == old(place)[n]
      ensures child in place && place[child] == Place(old(place)[n].root, kernel, old(place)[n].path + [i])
      ensures LinkedChild(old(store), store, n, i, child, persistent)
      ensures Updated(lowest, old(store), store, n, level, lo, 0, 0, Unmap)
    {
      assert NodeOk(lowest, store, place, n) && SlotOk(store, place, n, i);
      assert store[n][i].addr != 0 ==> NodeOk(lowest, store, place, store[n][i].addr);
      child := store[n][i].addr;
      if child == 0 {
        FreshPage(store);
        child :| child > 0 && child % 0x1000 == 0 && child !in store;
        LinkedWellFormed(lowest, store, place, n, level, i, child, persistent);
        store := LinkedStore(store, n, i, child, NextLevelEntry(kernel, child, persistent));
        place := LinkedPlace(place, n, i, child);
        forall a: nat | lo <= a < lo + Coverage(level + 1)
          ensures GetEntry(lowest, store, n, level, a) == GetEntry(lowest, old(store), n, level, a)
        {
          PathRange(place[n].path, level, lo, a);
          LinkedLookup(lowest, old(store), old(place), n, level, i, child, persistent, a);
        }
      }
    }

    /** add_to_pagetable: only the outermost call passes the caller's type on. */
    method AddRange(
      n: nat, level: nat, base: nat, size: nat, kernel: bool, perm: Permission, persistent: bool, ghost lo: nat)
      requires Valid() && n in place && place[n].kernel == kernel
      requires lowest <= level && StartsAt(place[n].path, level, lo)
      requires persistent ==> level == TOP_LEVEL
      requires base % Coverage(lowest) == 0 && size % Coverage(lowest) == 0
      requires lo <= base && base + size <= lo + Coverage(level + 1)
      modifies this`store, this`place
      ensures Valid()
      ensures Applied(lowest, old(store), old(place), store, place, n, level, lo, base, base + size,
                      Map(kernel, perm), persistent)
      decreases level
    {
      var addr := base;
      ghost var change, p := Map(kernel, perm), place[n];
      NothingApplied(lowest, store, place, n, level, lo, base, change, persistent);
      while addr < base + size
        invariant base <= addr <= lo + Coverage(level + 1)
        invariant addr % Coverage(lowest) == 0
        invariant Valid() && n in place && place[n] == p
        invariant Applied(lowest, old(store), old(place), store, place, n, level, lo, base, Min(addr, base + size),
                          change, persistent)
        decreases base + size - addr
      {
        IndexRange(lo, level, addr);
        NextBasePageAligned(lowest, level, addr);
        var next := NextBase(addr, level);
        ghost var store1, place1 := store, place;
        EndPageAligned(lowest, base, size);
        AddStretch(n, level, addr, Min(base + size, next), kernel, perm, persistent, lo);
        AppliedTrans(lowest, old(store), old(place), store1, place1, store, place, n, level, lo,
                     base, addr, Min(base + size, next), change, persistent);
        addr := next;
      }
    }

    /** One iteration: the part of the range from addr to the end of the entry's stretch. */
    method AddStretch(
      n: nat, level: nat, addr: nat, to: nat, kernel: bool, perm: Permission, persistent: bool, ghost lo: nat)
      requires Valid() && n in place && place[n].kernel == kernel
      requires lowest <= level && StartsAt(place[n].path, level, lo)
      requires persistent ==> level == TOP_LEVEL
      requires lo <= addr < lo + Coverage(level + 1) && addr < to <= NextBase(addr, level)
      requires addr % Coverage(lowest) == 0 && to % Coverage(lowest) == 0
      modifies this`store, this`place
      ensures Valid() && n in place && place[n] == old(place)[n]
      ensures Applied(lowest, old(store), old(place), store, place, n, level, lo, addr, to, Map(kernel, perm),
                      persistent)
      decreases level, 1
    {
      var i := Index(addr, level);
      if level != lowest {
        PageDifference(lowest, addr, to);
        AddBelow(n, level, i, addr, to - addr, kernel, perm, persistent, lo);
      } else {
        LeafEnd(lowest, addr, to);
        LeafPage(lowest, addr, Map(kernel, perm));
        SetLeaf(n, i, LeafEntry(kernel, addr, perm, persistent, level), lo, addr, Map(kernel, perm), persistent);
      }
    }

    /** One iteration above the lowest level: the stretch of one entry, starting at addr. */
    method AddBelow(
      n: nat, level: nat, i: nat, addr: nat, size: nat, kernel: bool, perm: Permission, persistent: bool, ghost lo: nat)
      requires Valid() && n in place && place[n].kernel == kernel
      requires lowest < level && StartsAt(place[n].path, level, lo)
      requires persistent ==> level == TOP_LEVEL
      requires lo <= addr < lo + Coverage(level + 1) && i == Index(addr, level)
      requires size > 0 && addr + size <= NextBase(addr, level)
      requires addr % Coverage(lowest) == 0 && size % Coverage(lowest) == 0
      modifies this`store, this`place
      ensures Valid() && n in place && place[n] == old(place)[n]
      ensures Applied(lowest, old(store), old(place), store, place, n, level, lo, addr, addr + size,
                      Map(kernel, perm), persistent)
      decreases level, 0
    {
      ghost var childLo := ChildRange(place[n].path, level, lo, addr, size);
      var child := LinkChild(n, level, i, kernel, persistent, lo);
      ghost var store1, place1 := store, place;
      AddRange(child, level - 1, addr, size, kernel, perm, false, childLo);
      AppliedBelow(lowest, old(store), old(place), store1, place1, store, place, n, level, lo, childLo, i, child,
                   addr, addr + size, Map(kernel, perm), persistent);
    }

    method SetLeaf(n: nat, i: nat, e: Entry, ghost lo: nat, ghost addr: nat, ghost change: Change,
                   ghost persistent: bool)
      requires Valid() && n in place && StartsAt(place[n].path, lowest, lo)
      requires lo <= addr < lo + Coverage(lowest + 1) && i == Index(addr, lowest)
      requires addr % Coverage(lowest) == 0
      requires forall a: nat :: addr <= a < NextBase(addr, lowest) ==> NewEntry(lowest, change, a) == e
      modifies this`store
      ensures Valid()
      ensures Applied(lowest, old(store), place, store, place, n, lowest, lo, addr, NextBase(addr, lowest),
                      change, persistent)
    {
      assert NodeOk(lowest, store, place, n);
      LeafWellFormed(lowest, store, place, n, i, e);
      store := store[n := store[n][i := e]];
      forall a: nat | lo <= a < lo + Coverage(lowest + 1)
        ensures GetEntry(lowest, store, n, lowest, a) ==
                  if addr <= a < NextBase(addr, lowest)
                  then NewEntry(lowest, change, a) else GetEntry(lowest, old(store), n, lowest, a)
      {
        SlotRange(lo, lowest, addr, a);
        IndexRange(lo, lowest, addr);
        AlignedSlot(lowest, lo, addr);
      }
    }

    /** remove_from_pagetable: entries with no node below them are skipped. */
    method RemoveRange(n: nat, level: nat, base: nat, size: nat, ghost lo: nat)
      requires Valid() && n in place
      requires lowest <= level && StartsAt(place[n].path, level, lo)
      requires base % Coverage(lowest) == 0 && size % Coverage(lowest) == 0
      requires lo <= base && base + size <= lo + Coverage(level + 1)
      modifies this`store
      ensures Valid()
      ensures Applied(lowest, old(store), place, store, place, n, level, lo, base, base + size, Unmap, false)
      decreases level
    {
      var addr := base;
      NothingApplied(lowest, store, place, n, level, lo, base, Unmap, false);
      while addr < base + size
        invariant base <= addr <= lo + Coverage(level + 1)
        invariant addr % Coverage(lowest) == 0
        invariant Valid()
        invariant Applied(lowest, old(store), place, store, place, n, level, lo, base, Min(addr, base + size), Unmap,
                          false)
        decreases base + size - addr
      {
        IndexRange(lo, level, addr);
        NextBasePageAligned(lowest, level, addr);
        var next := NextBase(addr, level);
        var i := Index(addr, level);
        ghost var store1 := store;
        EndPageAligned(lowest, base, size);
        if level != lowest {
          PageDifference(lowest, addr, Min(base + size, next));
          RemoveBelow(n, level, i, addr, Min(base + size, next) - addr, lo);
        } else {
          LeafEnd(lowest, addr, Min(base + size, next));
          SetLeaf(n, i, EMPTY, lo, addr, Unmap, false);
        }
        AppliedTrans(lowest, old(store), place, store1, place, store, place, n, level, lo,
                     base, addr, Min(next, base + size), Unmap, false);
        addr := next;
      }
    }

    method RemoveBelow(n: nat, level: nat, i: nat, addr: nat, size: nat, ghost lo: nat)
      requires Valid() && n in place
      requires lowest < level && StartsAt(place[n].path, level, lo)
      requires lo <= addr < lo + Coverage(level + 1) && i == Index(addr, level)
      requires size > 0 && addr + size <= NextBase(addr, level)
      requires addr % Coverage(lowest) == 0 && size % Coverage(lowest) == 0
      modifies this`store
      ensures Valid()
      ensures Applied(lowest, old(store), place, store, place, n, level, lo, addr, addr + size, Unmap, false)
      decreases level, 0
    {
      assert NodeOk(lowest, store, place, n) && SlotOk(store, place, n, i);
      var child := store[n][i].addr;
      if child != 0 {
        ghost var childLo := ChildRange(place[n].path, level, lo, addr, size);
        RemoveRange(child, level - 1, addr, size, childLo);
        AppliedBelow(lowest, old(store), place, old(store), place, store, place, n, level, lo, childLo, i, child,
                     addr, addr + size, Unmap, false);
      } else {
        UnlinkedReadsEmpty(lowest, store, place, n, level, lo, addr, addr + size);
      }
    }

    /** deallocate_pagetable: the node is freed after the tables below its non-persistent entries. */
    method Deallocate(n: nat, level: nat, ghost whole: Store)
      requires lowest <= level <= TOP_LEVEL
      requires WellFormed(lowest, whole, place) && n in place && |place[n].path| == TOP_LEVEL - level
      requires AgreesBelow(store, whole, place, place[n].root, place[n].path)
      modifies this`store, this`freed
      ensures freed == old(freed) + FreeList(lowest, whole, n, level)
      ensures store == Without(old(store), FreeList(lowest, whole, n, level))
      decreases level, 1
    {
      assert NodeOk(lowest, whole, place, n);
      if level != lowest {
        var index := 0;
        while index < ENTRY_COUNT
          invariant index <= ENTRY_COUNT
          invariant freed == old(freed) + FreeBelow(lowest, whole, n, level, index)
          invariant store == Without(old(store), FreeBelow(lowest, whole, n, level, index))
        {
          StillAgrees(lowest, old(store), whole, place, n, level, index);
          FreeNext(lowest, whole, n, level, index, old(store), old(freed));
          DeallocateEntry(n, level, index, whole);
          index := index + 1;
        }
        WithoutConcat(old(store), FreeBelow(lowest, whole, n, level, ENTRY_COUNT), [n]);
      }
      store := store - {n};
      freed := freed + [n];
    }

    /** The table below one entry, unless there is none or it is persistent. */
    method DeallocateEntry(n: nat, level: nat, index: nat, ghost whole: Store)
      requires lowest < level <= TOP_LEVEL && index < ENTRY_COUNT
      requires WellFormed(lowest, whole, place) && n in whole && |whole[n]| == ENTRY_COUNT
      requires n in store && store[n] == whole[n]
      requires var e := whole[n][index];
               !e.persistent && e.addr != 0 ==>
                 && e.addr in place && |place[e.addr].path| == TOP_LEVEL - (level - 1)
                 && AgreesBelow(store, whole, place, place[e.addr].root, place[e.addr].path)
      modifies this`store, this`freed
      ensures freed == old(freed) + FreeEntry(lowest, whole, n, level, index)
      ensures store == Without(old(store), FreeEntry(lowest, whole, n, level, index))
      decreases level, 0
    {
      if !store[n][index].persistent {
        var child := store[n][index].addr;
        if child != 0 {
          Deallocate(child, level - 1, whole);
        }
      }
    }

    /** alloc_pagetable_node for a root: a zeroed table in which every page reads as empty. */
    method CreateTable(kernel: bool) returns (root: nat)
      requires Valid()
      modifies this`store, this`place
      ensures Valid() && root !in old(store)
      ensures place == old(place)[root := Place(root, kernel, [])]
      ensures store == old(store)[root := seq(ENTRY_COUNT, _ => EMPTY)]
      ensures forall r: nat, a: nat :: IsRoot(old(place), r) && a < ADDRESS_LIMIT ==>
                Lookup(lowest, store, r, a) == Lookup(lowest, old(store), r, a)
      ensures forall a: nat :: a < ADDRESS_LIMIT ==> Lookup(lowest, store, root, a) == EMPTY
    {
      FreshPage(store);
      root :| root > 0 && root % 0x1000 == 0 && root !in store;
      RootWellFormed(lowest, store, place, root, kernel);
      store, place := store[root := seq(ENTRY_COUNT, _ => EMPTY)], place[root := Place(root, kernel, [])];
      forall r: nat, a: nat | IsRoot(old(place), r) && a < ADDRESS_LIMIT
        ensures Lookup(lowest, store, r, a) == Lookup(lowest, old(store), r, a)
      {
        assert Attached(old(store), old(place), r);
        WalkOutside(lowest, old(store), old(place), store, place, root, [], r, TOP_LEVEL, a);
      }
    }

    /** add_to_kernel_pagetable and add_to_compartment_pagetable. */
    method MapPages(root: nat, kernel: bool, base: nat, size: nat, perm: Permission) returns (outcome: Outcome)
      requires Valid() && IsRoot(place, root) && place[root].kernel == kernel
      requires base + size <= ADDRESS_LIMIT
      modifies this`store, this`place
      ensures Valid()
      ensures outcome == Abort <==> base % Coverage(lowest) != 0 || size % Coverage(lowest) != 0
      ensures outcome == Abort ==> store == old(store) && place == old(place)
      ensures outcome == Done ==>
                && Remapped(lowest, old(store), old(place), store, place, root, base, size, Map(kernel, perm))
                && RootLinks(lowest, old(store), old(place), store, root, base, size, Map(kernel, perm), false)
    {
      if base % Coverage(lowest) != 0 || size % Coverage(lowest) != 0 {
        return Abort;
      }
      AddRange(root, TOP_LEVEL, base, size, kernel, perm, false, 0);
      AppliedToRoot(lowest, old(store), old(place), store, place, root, base, size, Map(kernel, perm), false);
      return Done;
    }

    /** One entry of compartment_initializer_from_map, which asks for persistent entries. */
    method MapPredefined(root: nat, base: nat, size: nat, perm: Permission)
      requires Valid() && IsRoot(place, root) && !place[root].kernel
      requires base % Coverage(lowest) == 0 && size % Coverage(lowest) == 0 && base + size <= ADDRESS_LIMIT
      modifies this`store, this`place
      ensures Valid()
      ensures Remapped(lowest, old(store), old(place), store, place, root, base, size, Map(false, perm))
      ensures RootLinks(lowest, old(store), old(place), store, root, base, size, Map(false, perm), true)
    {
      AddRange(root, TOP_LEVEL, base, size, false, perm, true, 0);
      AppliedToRoot(lowest, old(store), old(place), store, place, root, base, size, Map(false, perm), true);
    }

    /** remove_from_compartment_pagetable, which also refuses the kernel table. */
    method UnmapPages(root: nat, base: nat, size: nat) returns (outcome: Outcome)
      requires Valid() && IsRoot(place, root)
      requires base + size <= ADDRESS_LIMIT
      modifies this`store
      ensures Valid()
      ensures outcome == Abort <==>
                base % Coverage(lowest) != 0 || size % Coverage(lowest) != 0 || root == kernelRoot
      ensures outcome == Abort ==> store == old(store)
      ensures outcome == Done ==>
                && Remapped(lowest, old(store), place, store, place, root, base, size, Unmap)
                && RootLinks(lowest, old(store), place, store, root, base, size, Unmap, false)
    {
      if base % Coverage(lowest) != 0 || size % Coverage(lowest) != 0 {
        return Abort;
      } else if root == kernelRoot {
        return Abort;
      }
      RemoveRange(root, TOP_LEVEL, base, size, 0);
      AppliedToRoot(lowest, old(store), place, store, place, root, base, size, Unmap, false);
      return Done;
    }

    /** deallocate_compartment_pagetable; nodes below persistent entries stay allocated. */
    method Destroy(root: nat)
      requires Valid() && IsRoot(place, root)
      modifies this`store, this`place, this`freed
      ensures Valid()
      ensures freed == old(freed) + FreeList(lowest, old(store), root, TOP_LEVEL)
      ensures store == Without(old(store), FreeList(lowest, old(store), root, TOP_LEVEL))
      ensures forall r :: IsRoot(place, r) <==> IsRoot(old(place), r) && r != root
      ensures forall r :: IsRoot(place, r) ==> IsRoot(old(place), r) && place[r] == old(place)[r]
      ensures forall r: nat, a: nat :: IsRoot(place, r) && a < ADDRESS_LIMIT ==>
                Lookup(lowest, store, r, a) == Lookup(lowest, old(store), r, a)
    {
      assert Attached(store, place, root);
      Deallocate(root, TOP_LEVEL, store);
      FreeListPlaces(lowest, old(store), place, root, TOP_LEVEL);
      DroppedWellFormed(lowest, old(store), place, store, root);
      place := map m | m in place && place[m].root != root :: place[m];
      forall r | IsRoot(old(place), r) && r != root
        ensures IsRoot(place, r)
      {
        assert Attached(old(store), old(place), r);
      }
      forall r: nat, a: nat | IsRoot(place, r) && a < ADDRESS_LIMIT
        ensures Lookup(lowest, store, r, a) == Lookup(lowest, old(store), r, a)
      {
        WalkFrame(lowest, old(store), store, old(place), r, TOP_LEVEL, a);
      }
    }
  }
}
