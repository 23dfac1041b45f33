/**
The stack of stacks of a compartment: get_stack and release_stack
(guest-verona-rt/experimental/include/arch_compartment.h) as used around every
invocation by InvokeScopedStack (guest-verona-rt/experimental/include/compartment.h).
*/
module InvocationStacks {
  import opened Sequences
  import opened Transitions
  import opened TransitionRuns

  /** Stacks are named by the address of their memory; one is preallocated and never freed. */
  datatype Stacks = Stacks(all: seq<int>, initialUsed: bool)

  predicate StacksOk(t: Stacks) {
    t.all != [] && (!t.initialUsed ==> |t.all| == 1)
  }

  /** The stacks of the live invocations, the innermost last. */
  function Live(t: Stacks): seq<int> {
    if t.initialUsed then t.all else []
  }

  function Taken(t: Stacks, memory: int): Stacks {
    if |t.all| == 1 && !t.initialUsed then t.(initialUsed := true) else t.(all := t.all + [memory])
  }

  function Released(t: Stacks): Stacks
    requires t.all != []
  {
    if |t.all| == 1 then t.(initialUsed := false) else t.(all := t.all[..|t.all| - 1])
  }

  class CompartmentStacks {
    var stackOfStacks: seq<int>
    var isInitialStackUsed: bool
    var stackLimit: int

    ghost function Contents(): Stacks
      reads this`stackOfStacks, this`isInitialStackUsed
    {
      Stacks(stackOfStacks, isInitialStackUsed)
    }

    constructor (memory: int)
      ensures Contents() == Stacks([memory], false) && StacksOk(Contents()) && Live(Contents()) == []
    {
      stackOfStacks, isInitialStackUsed, stackLimit := [memory], false, 0;
    }

    /** memory is what the compartment allocator would hand out. */
    method GetStack(memory: int) returns (stack: int)
      requires StacksOk(Contents()) && memory !in stackOfStacks
      modifies this
      ensures Contents() == Taken(old(Contents()), memory) && StacksOk(Contents())
      ensures Live(Contents()) == old(Live(Contents())) + [stack] && stack !in old(Live(Contents()))
      ensures stackLimit == stack
    {
      if |stackOfStacks| == 1 && !isInitialStackUsed {
        isInitialStackUsed := true;
        stack := stackOfStacks[0];
      } else {
        stackOfStacks := stackOfStacks + [memory];
        stack := stackOfStacks[|stackOfStacks| - 1];
      }
      stackLimit := stack;
    }

    /** Called once for every stack taken, the innermost first. */
    method ReleaseStack()
      requires StacksOk(Contents()) && Live(Contents()) != []
      modifies this`stackOfStacks, this`isInitialStackUsed
      ensures Contents() == Released(old(Contents())) && StacksOk(Contents())
      ensures Live(Contents()) == old(Live(Contents()))[..|old(Live(Contents()))| - 1]
    {
      if |stackOfStacks| == 1 {
        isInitialStackUsed := false;
      } else {
        stackOfStacks := stackOfStacks[..|stackOfStacks| - 1];
      }
    }
  }

  // --- Stacks over whole runs ------------------------------------------------------

  /** How many of the open invocations are of compartment c. */
  function Depth(frames: seq<Frame>, c: int): nat {
    if frames == [] then 0
    else
      var last := frames[|frames| - 1];
      Depth(frames[..|frames| - 1], c) + if last.Entered? && last.self == c then 1 else 0
  }

  /** An invocation of c takes a stack before compartment_enter and releases one after it has returned. */
  function StacksNext(t: Stacks, frames: seq<Frame>, a: Action, memory: int, c: int): Stacks {
    if a.Enter? && a.self == c then Taken(t, memory)
    else if Leaves(a) && Leaver(frames, a) == c && t.all != [] then Released(t)
    else t
  }

  /** The compartment of the invocation that ends; 0 if there is none. */
  function Leaver(frames: seq<Frame>, a: Action): int {
    var k := Level(frames, a);
    if k >= 0 && frames[k].Entered? then frames[k].self else 0
  }

  /** The stacks of compartment c after n steps; memory[i] is what an allocation at step i yields. */
  ghost function StacksAfter(states: seq<State>, actions: seq<Action>, memory: seq<int>, first: int, n: nat,
                             c: int): Stacks
    requires IsRun(states, actions) && n <= |actions| == |memory|
  {
    if n == 0 then Stacks([first], false)
    else
      StacksNext(StacksAfter(states, actions, memory, first, n - 1, c),
                 Frames(states, actions, n - 1), actions[n - 1], memory[n - 1], c)
  }

  ghost predicate FreshAt(states: seq<State>, actions: seq<Action>, memory: seq<int>, first: int, c: int, i: nat)
    requires IsRun(states, actions) && i < |actions| == |memory|
  {
    memory[i] !in StacksAfter(states, actions, memory, first, i, c).all
  }

  /** Memory that a compartment's stack occupies is not handed out again. */
  ghost predicate AllocatesFresh(states: seq<State>, actions: seq<Action>, memory: seq<int>, first: int, c: int)
    requires IsRun(states, actions) && |actions| == |memory|
  {
    forall i: nat {:trigger FreshAt(states, actions, memory, first, c, i)} :: i < |actions| ==>
      FreshAt(states, actions, memory, first, c, i)
  }

  ghost predicate StacksMatch(t: Stacks, depth: nat) {
    StacksOk(t) && NoDuplicates(t.all) && |Live(t)| == depth
  }

  lemma {:induction false} DepthPrefix(frames: seq<Frame>, c: int, k: nat)
    requires k <= |frames|
    ensures Depth(frames[..k], c) <= Depth(frames, c)
    ensures k < |frames| && frames[k].Entered? && frames[k].self == c ==> Depth(frames[..k], c) < Depth(frames, c)
  {
    if k == |frames| {
      assert frames[..k] == frames;
    } else {
      DepthPrefix(frames[..|frames| - 1], c, k);
      assert frames[..|frames| - 1][..k] == frames[..k];
    }
  }

  lemma OneMoreDepth(frames: seq<Frame>, f: Frame, c: int)
    ensures Depth(frames + [f], c) == Depth(frames, c) + if f.Entered? && f.self == c then 1 else 0
  {
    assert (frames + [f])[..|frames|] == frames;
  }

  /** Leaving gives up exactly one level of the compartment that is left. */
  lemma LeavingDepth(s: State, frames: seq<Frame>, start: Origin, n: nat, a: Action, c: int)
    requires Inv(s, frames, start) && Enabled(s, frames, start, a) && Leaves(a)
    ensures var k := Level(frames, a);
            && 0 <= k < |frames| && frames[k].Entered? && Moved(frames, n, s, a) == frames[..k]
            && Depth(frames, c) == Depth(frames[..k], c) + if frames[k].self == c then 1 else 0
  {
    var k := Level(frames, a);
    if a.AbortCallback? {
      assert frames[..|frames| - 1][..k] == frames[..k];
    }
  }

  lemma TakenMatches(t: Stacks, depth: nat, memory: int)
    requires StacksMatch(t, depth) && memory !in t.all
    ensures StacksMatch(Taken(t, memory), depth + 1)
  {
  }

  lemma ReleasedMatches(t: Stacks, depth: nat)
    requires StacksMatch(t, depth) && depth > 0
    ensures StacksMatch(Released(t), depth - 1)
  {
  }

  /** Every other step leaves the depths alone, but for an entry, which adds a level. */
  lemma OtherDepth(s: State, frames: seq<Frame>, start: Origin, n: nat, a: Action, c: int)
    requires Inv(s, frames, start) && Enabled(s, frames, start, a) && !Leaves(a)
    ensures Depth(Moved(frames, n, s, a), c) == Depth(frames, c) + if a.Enter? && a.self == c then 1 else 0
  {
    if a.Enter? {
      OneMoreDepth(frames, Entered(n, a.self, ContextOf(s)), c);
    } else if a.Call? {
      OneMoreDepth(frames, Called(n, s.rsp), c);
    } else if a.CallReturn? {
      assert frames[|frames| - 1].Called?;
    }
  }

  /** What StacksMatch needs to know of a step. */
  predicate DepthMoves(frames: seq<Frame>, a: Action, c: int, depth: nat, depth': nat) {
    if Leaves(a) then depth == depth' + if Leaver(frames, a) == c then 1 else 0
    else depth' == depth + if a.Enter? && a.self == c then 1 else 0
  }

  lemma DepthStep(s: State, frames: seq<Frame>, start: Origin, n: nat, a: Action, c: int)
    requires Inv(s, frames, start) && Enabled(s, frames, start, a)
    ensures DepthMoves(frames, a, c, Depth(frames, c), Depth(Moved(frames, n, s, a), c))
  {
    if Leaves(a) { LeavingDepth(s, frames, start, n, a, c); } else { OtherDepth(s, frames, start, n, a, c); }
  }

  lemma StacksStep(t: Stacks, frames: seq<Frame>, a: Action, memory: int, c: int, depth: nat, depth': nat)
    requires DepthMoves(frames, a, c, depth, depth') && StacksMatch(t, depth) && memory !in t.all
    ensures StacksMatch(StacksNext(t, frames, a, memory, c), depth')
  {
    if Leaves(a) {
      if Leaver(frames, a) == c { ReleasedMatches(t, depth); }
    } else if a.Enter? && a.self == c {
      TakenMatches(t, depth, memory);
    }
  }

  ghost predicate StacksMatchAt(states: seq<State>, actions: seq<Action>, memory: seq<int>, first: int, n: nat, c: int)
    requires IsRun(states, actions) && n <= |actions| == |memory|
  {
    StacksMatch(StacksAfter(states, actions, memory, first, n, c), Depth(Frames(states, actions, n), c))
  }

  lemma {:induction false} RunStacks(states: seq<State>, actions: seq<Action>, memory: seq<int>, first: int,
                                     n: nat, c: int)
    requires IsRun(states, actions) && n <= |actions| == |memory|
    requires AllocatesFresh(states, actions, memory, first, c)
    ensures StacksMatchAt(states, actions, memory, first, n, c)
  {
    if n > 0 {
      RunStacks(states, actions, memory, first, n - 1, c);
      RunStacksStep(states, actions, memory, first, n - 1, c);
    }
  }

  lemma RunStacksStep(states: seq<State>, actions: seq<Action>, memory: seq<int>, first: int, n: nat, c: int)
    requires IsRun(states, actions) && n < |actions| == |memory|
    requires AllocatesFresh(states, actions, memory, first, c) && StacksMatchAt(states, actions, memory, first, n, c)
    ensures StacksMatchAt(states, actions, memory, first, n + 1, c)
  {
    var t, frames := StacksAfter(states, actions, memory, first, n, c), Frames(states, actions, n);
    assert DepthMoves(frames, actions[n], c, Depth(frames, c), Depth(Frames(states, actions, n + 1), c)) by {
      StepIsEnabled(states, actions, n);
      DepthStep(states[n], frames, OriginOf(states[0]), n, actions[n], c);
    }
    assert FreshAt(states, actions, memory, first, c, n);
    StacksStep(t, frames, actions[n], memory[n], c, Depth(frames, c), Depth(Frames(states, actions, n + 1), c));
  }

  /**
  In every reachable state of every run: the live invocations of a compartment hold distinct
  stacks, there are max(1, depth) stacks in all, and the preallocated one is in use iff the
  compartment is live.
  */
  lemma {:induction false} StackPerInvocation(states: seq<State>, actions: seq<Action>, memory: seq<int>, first: int,
                                              n: nat, c: int)
    requires IsRun(states, actions) && n <= |actions| == |memory|
    requires AllocatesFresh(states, actions, memory, first, c)
    ensures var t, depth := StacksAfter(states, actions, memory, first, n, c), Depth(Frames(states, actions, n), c);
            && |Live(t)| == depth && NoDuplicates(Live(t))
            && |t.all| == (if depth == 0 then 1 else depth)
            && (t.initialUsed <==> depth > 0)
  {
    RunStacks(states, actions, memory, first, n, c);
  }

  /**
  An open invocation keeps its stack: what get_stack gave it when it was entered is still its
  stack, at the position of its depth, in every state until it is left.
  */
  lemma {:induction false} InvocationKeepsStack(states: seq<State>, actions: seq<Action>, memory: seq<int>, first: int,
                                                n: nat, k: nat)
    requires IsRun(states, actions) && n <= |actions| == |memory|
    requires k < |Frames(states, actions, n)| && Frames(states, actions, n)[k].Entered?
    requires AllocatesFresh(states, actions, memory, first, Frames(states, actions, n)[k].self)
    ensures var f := Frames(states, actions, n)[k];
            && f.step < n
            && var taken, now := StacksAfter(states, actions, memory, first, f.step + 1, f.self),
                                 StacksAfter(states, actions, memory, first, n, f.self);
               var j := Depth(Frames(states, actions, n)[..k], f.self);
               && |Live(taken)| == j + 1 <= |Live(now)|
               && Live(now)[j] == Live(taken)[j]
  {
    var f := Frames(states, actions, n)[k];
    EntryDepth(states, actions, n, k);
    RunStacks(states, actions, memory, first, f.step + 1, f.self);
    LiveKept(states, actions, memory, first, f.step + 1, n, k, f.self);
  }

  /** Right after an invocation is entered it is the innermost of its compartment, with the depth it keeps. */
  lemma {:induction false} EntryDepth(states: seq<State>, actions: seq<Action>, n: nat, k: nat)
    requires |states| == |actions| + 1 && n <= |actions|
    requires k < |Frames(states, actions, n)| && Frames(states, actions, n)[k].Entered?
    ensures var f := Frames(states, actions, n)[k];
            && f.step < n && |Frames(states, actions, f.step + 1)| == k + 1
            && OpenSince(states, actions, f.step + 1, n, k + 1)
            && Depth(Frames(states, actions, f.step + 1), f.self)
               == Depth(Frames(states, actions, n)[..k], f.self) + 1
  {
    var f := Frames(states, actions, n)[k];
    var i := f.step;
    FrameIsOpened(states, actions, n, k);
    OpenWithin(states, actions, i, n, k + 1, n, k);
    SameBelow(states, actions, i, n, k);
    assert Frames(states, actions, i)[..k] == Frames(states, actions, i);
    OneMoreDepth(Frames(states, actions, i), Entered(i, f.self, ContextOf(states[i])), f.self);
  }

  /** While level k stays open, the stacks of the invocations up to it stay where they are. */
  lemma {:induction false} LiveKept(states: seq<State>, actions: seq<Action>, memory: seq<int>, first: int,
                                    i: nat, n: nat, k: nat, c: int)
    requires IsRun(states, actions) && i <= n <= |actions| == |memory|
    requires AllocatesFresh(states, actions, memory, first, c)
    requires |Frames(states, actions, i)| == k + 1 && OpenSince(states, actions, i, n, k + 1)
    ensures Live(StacksAfter(states, actions, memory, first, i, c))
         <= Live(StacksAfter(states, actions, memory, first, n, c))
    decreases n
  {
    if i < n {
      OpenWithin(states, actions, i, n, k + 1, n - 1, k + 1);
      LiveKept(states, actions, memory, first, i, n - 1, k, c);
      RunStacks(states, actions, memory, first, i, c);
      RunStacks(states, actions, memory, first, n - 1, c);
      RunStacks(states, actions, memory, first, n, c);
      DepthKept(states, actions, i, n, k, c);
      NextKeepsLive(StacksAfter(states, actions, memory, first, n - 1, c), Frames(states, actions, n - 1),
                    actions[n - 1], memory[n - 1], c, |Live(StacksAfter(states, actions, memory, first, i, c))|);
    }
  }

  lemma {:induction false} DepthKept(states: seq<State>, actions: seq<Action>, i: nat, n: nat, k: nat, c: int)
    requires |states| == |actions| + 1 && i <= n <= |actions|
    requires |Frames(states, actions, i)| == k + 1 && OpenSince(states, actions, i, n, k + 1)
    ensures Depth(Frames(states, actions, i), c) <= Depth(Frames(states, actions, n), c)
  {
    SameBelow(states, actions, i, n, k + 1);
    DepthPrefix(Frames(states, actions, n), c, k + 1);
    assert Frames(states, actions, i)[..k + 1] == Frames(states, actions, i);
  }

  lemma NextKeepsLive(t: Stacks, frames: seq<Frame>, a: Action, memory: int, c: int, m: nat)
    requires StacksOk(t) && m <= |Live(t)| && m <= |Live(StacksNext(t, frames, a, memory, c))|
    ensures Live(StacksNext(t, frames, a, memory, c))[..m] == Live(t)[..m]
  {
  }
}
