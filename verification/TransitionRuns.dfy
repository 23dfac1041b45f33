/** What entering and leaving compartments guarantees over whole runs, at any depth of nesting. */
module TransitionRuns {
  import opened Transitions

  /** The open frames after n steps. */
  ghost function Frames(states: seq<State>, actions: seq<Action>, n: nat): seq<Frame>
    requires |states| == |actions| + 1 && n <= |actions|
  {
    if n == 0 then [] else Moved(Frames(states, actions, n - 1), n - 1, states[n - 1], actions[n - 1])
  }

  ghost predicate StepAt(states: seq<State>, actions: seq<Action>, i: nat)
    requires |states| == |actions| + 1 && i < |actions|
  {
    && Enabled(states[i], Frames(states, actions, i), OriginOf(states[0]), actions[i])
    && states[i + 1] == Next(states[i], actions[i])
  }

  ghost predicate IsRun(states: seq<State>, actions: seq<Action>) {
    && |states| == |actions| + 1
    && states[0].space == Kernel && Protects(states[0].writable, OriginOf(states[0]))
    && forall i: nat {:trigger StepAt(states, actions, i)} :: i < |actions| ==> StepAt(states, actions, i)
  }

  lemma {:induction false} RunInv(states: seq<State>, actions: seq<Action>, n: nat)
    requires IsRun(states, actions) && n <= |actions|
    ensures Inv(states[n], Frames(states, actions, n), OriginOf(states[0]))
  {
    if n > 0 {
      RunInv(states, actions, n - 1);
      assert StepAt(states, actions, n - 1);
      StepInv(states[n - 1], Frames(states, actions, n - 1), OriginOf(states[0]), n - 1, actions[n - 1]);
    }
  }

  lemma {:induction false} StepIsEnabled(states: seq<State>, actions: seq<Action>, n: nat)
    requires IsRun(states, actions) && n < |actions|
    ensures Inv(states[n], Frames(states, actions, n), OriginOf(states[0]))
    ensures Enabled(states[n], Frames(states, actions, n), OriginOf(states[0]), actions[n])
    ensures states[n + 1] == Next(states[n], actions[n])
    ensures Frames(states, actions, n + 1) == Moved(Frames(states, actions, n), n, states[n], actions[n])
  {
    RunInv(states, actions, n);
    assert StepAt(states, actions, n);
  }

  ghost predicate AtLeast(states: seq<State>, actions: seq<Action>, j: nat, level: nat)
    requires |states| == |actions| + 1 && j <= |actions|
  {
    |Frames(states, actions, j)| >= level
  }

  /** At least that many frames are open in every state after i, up to n. */
  ghost predicate OpenSince(states: seq<State>, actions: seq<Action>, i: nat, n: nat, level: nat)
    requires |states| == |actions| + 1 && n <= |actions|
  {
    forall j: nat {:trigger AtLeast(states, actions, j, level)} :: i < j <= n ==> AtLeast(states, actions, j, level)
  }

  /** Frame k was opened at its step, from the state it records, and has been open ever since. */
  ghost predicate Opened(states: seq<State>, actions: seq<Action>, n: nat, k: nat)
    requires |states| == |actions| + 1 && n <= |actions| && k < |Frames(states, actions, n)|
  {
    var f := Frames(states, actions, n)[k];
    && f.step < n && |Frames(states, actions, f.step)| == k
    && OpenSince(states, actions, f.step, n, k + 1)
    && (f.Entered? ==>
          actions[f.step].Enter? && actions[f.step].self == f.self && ContextOf(states[f.step]) == f.before)
    && (f.Called? ==> actions[f.step].Call? && states[f.step].rsp == f.sp)
  }

  /** A frame that is open before and after a step is the same frame. */
  lemma FrameStays(states: seq<State>, actions: seq<Action>, n: nat, k: nat)
    requires |states| == |actions| + 1 && n < |actions|
    requires k < |Frames(states, actions, n)| && k < |Frames(states, actions, n + 1)|
    ensures Frames(states, actions, n + 1)[k] == Frames(states, actions, n)[k]
  {
  }

  /** A step opens at most one frame, and records itself there. */
  lemma FrameIsNew(states: seq<State>, actions: seq<Action>, n: nat, k: nat)
    requires |states| == |actions| + 1 && n < |actions|
    requires |Frames(states, actions, n)| <= k < |Frames(states, actions, n + 1)|
    ensures |Frames(states, actions, n)| == k && Frames(states, actions, n + 1)[k].step == n
    ensures var f := Frames(states, actions, n + 1)[k];
            && (f.Entered? ==> actions[n].Enter? && actions[n].self == f.self && ContextOf(states[n]) == f.before)
            && (f.Called? ==> actions[n].Call? && states[n].rsp == f.sp)
  {
  }

  lemma OpenLonger(states: seq<State>, actions: seq<Action>, i: nat, n: nat, level: nat)
    requires |states| == |actions| + 1 && n < |actions|
    requires OpenSince(states, actions, i, n, level) && |Frames(states, actions, n + 1)| >= level
    ensures OpenSince(states, actions, i, n + 1, level)
  {
    forall j: nat | i < j <= n + 1 ensures AtLeast(states, actions, j, level) {
      if j <= n { assert AtLeast(states, actions, j, level); }
    }
  }

  lemma {:induction false} FrameIsOpened(states: seq<State>, actions: seq<Action>, n: nat, k: nat)
    requires |states| == |actions| + 1 && n <= |actions| && k < |Frames(states, actions, n)|
    ensures Opened(states, actions, n, k)
    decreases n
  {
    var m := n - 1;
    if k < |Frames(states, actions, m)| {
      FrameIsOpened(states, actions, m, k);
      FrameStays(states, actions, m, k);
      OpenLonger(states, actions, Frames(states, actions, m)[k].step, m, k + 1);
    } else {
      FrameIsNew(states, actions, m, k);
      assert OpenSince(states, actions, m, m, k + 1);
      OpenLonger(states, actions, m, m, k + 1);
    }
  }

  /**
  Every return, exit and abort ends the invocation that was entered last and is still open:
  rsp, the callee-saved registers, the control flags and last_stack_ptr are again what they were
  at that compartment_enter, however deep the calls in between went.  The status flags are not:
  they are what the last instructions and calls on the way out left.  Only an exit or an abort
  invalidates a compartment, and it invalidates just that one.
  */
  lemma {:induction false} LeavingRestores(states: seq<State>, actions: seq<Action>, n: nat)
    requires IsRun(states, actions) && n < |actions|
    requires Leaves(actions[n])
    ensures var frames := Frames(states, actions, n);
            var k := Level(frames, actions[n]);
            && 0 <= k < |frames|
            && var enter := frames[k].step;
               && enter < n && actions[enter].Enter?
               && |Frames(states, actions, enter)| == k == |Frames(states, actions, n + 1)|
               && OpenSince(states, actions, enter, n, k + 1)
               && Restored(ContextOf(states[n + 1]), ContextOf(states[enter]))
               && states[n + 1].flags.arithmetic == actions[n].arithmetic
               && states[n + 1].space == Kernel
               && states[n + 1].rax == (if actions[n].Return? then 1 else 0)
               && states[n + 1].invalid
                  == states[n].invalid + (if actions[n].Return? then {} else {actions[enter].self})
  {
    StepIsEnabled(states, actions, n);
    LeavesInv(states[n], Frames(states, actions, n), OriginOf(states[0]), n, actions[n]);
    FrameIsOpened(states, actions, n, Level(Frames(states, actions, n), actions[n]));
  }

  /**
  Every compartment_enter opens one more invocation, of the compartment it names, which begins with
  interrupts enabled and every other flag clear, whatever the flags of its caller were.
  */
  lemma {:induction false} EnteringStartsClean(states: seq<State>, actions: seq<Action>, n: nat)
    requires IsRun(states, actions) && n < |actions| && actions[n].Enter?
    ensures var frames := Frames(states, actions, n + 1);
            && |frames| == |Frames(states, actions, n)| + 1
            && frames[|frames| - 1] == Entered(n, actions[n].self, ContextOf(states[n]))
            && states[n + 1].space == Inside(actions[n].self) && CompartmentOf(states[n + 1]) == actions[n].self
            && states[n + 1].flags == Flags(0x202, 0)
            && states[n + 1].lastSp == states[n + 1].rsp == states[n].rsp - 10
  {
    StepIsEnabled(states, actions, n);
    KernelSeesInnermost(states, actions, n + 1);
    EnterSaves(states[n], actions[n].self, actions[n].returnAddress, actions[n].arithmetic, n);
  }

  /**
  While any invocation is open, the compartment pointer that the kernel reads from the stack is
  that of the innermost one, and compartment code runs with that compartment's page table.
  */
  lemma {:induction false} KernelSeesInnermost(states: seq<State>, actions: seq<Action>, n: nat)
    requires IsRun(states, actions) && n <= |actions| && Frames(states, actions, n) != []
    ensures Alternates(Frames(states, actions, n))
    ensures CompartmentOf(states[n]) == Innermost(Frames(states, actions, n)).self
    ensures states[n].space == Kernel || states[n].space == Inside(CompartmentOf(states[n]))
  {
    RunInv(states, actions, n);
    var frames := Frames(states, actions, n);
    var k := if |frames| % 2 == 1 then |frames| - 1 else |frames| - 2;
    assert FrameOk(states[n], frames, OriginOf(states[0]), k);
  }

  /**
  A callback returns into the compartment that made it, right after its system call, with the callback's
  result; the flags that the call pushed come back, unless somebody changed that word in between.
  */
  lemma {:induction false} CallbackResumes(states: seq<State>, actions: seq<Action>, n: nat)
    requires IsRun(states, actions) && n < |actions| && actions[n].CallReturn?
    ensures var frames := Frames(states, actions, n);
            && frames != []
            && var call := frames[|frames| - 1].step;
               && call < n && actions[call].Call?
               && OpenSince(states, actions, call, n, |frames|)
               && states[n + 1].rsp == states[call].rsp + 1
               && states[n + 1].space == states[call].space
               && states[n + 1].rax == actions[n].result
               && var pushed := states[call].rsp - 1;
                  && Load(states[call + 1], pushed) == Rflags(states[call].flags)
                  && (Load(states[n], pushed) == Load(states[call + 1], pushed) ==>
                        states[n + 1].flags == states[call].flags)
  {
    StepIsEnabled(states, actions, n);
    var s, frames, start := states[n], Frames(states, actions, n), OriginOf(states[0]);
    CallReturnInv(s, frames, start, n, actions[n].result);
    FrameIsOpened(states, actions, n, |frames| - 1);
    var call := frames[|frames| - 1].step;
    StepIsEnabled(states, actions, call);
    CallPushes(states[call], Frames(states, actions, call), start);
    OpenWithin(states, actions, call, n, |frames|, n, |frames| - 1);
    SameBelow(states, actions, call, n, |frames| - 1);
  }

  lemma OpenWithin(states: seq<State>, actions: seq<Action>, i: nat, n: nat, level: nat, n': nat, level': nat)
    requires |states| == |actions| + 1 && n' <= n <= |actions| && level' <= level
    requires OpenSince(states, actions, i, n, level)
    ensures OpenSince(states, actions, i, n', level')
  {
    forall j: nat | i < j <= n' ensures AtLeast(states, actions, j, level') {
      assert AtLeast(states, actions, j, level);
    }
  }

  /** Frames at levels that stayed open do not change. */
  lemma {:induction false} SameBelow(states: seq<State>, actions: seq<Action>, i: nat, n: nat, k: nat)
    requires |states| == |actions| + 1 && i <= n <= |actions| && |Frames(states, actions, i)| >= k
    requires OpenSince(states, actions, i, n, k)
    ensures |Frames(states, actions, n)| >= k
    ensures Frames(states, actions, n)[..k] == Frames(states, actions, i)[..k]
    decreases n
  {
    if i < n {
      OpenWithin(states, actions, i, n, k, n - 1, k);
      SameBelow(states, actions, i, n - 1, k);
      assert AtLeast(states, actions, n, k);
    }
  }
}
