/**
SingleWaiterSemaphore (guest-verona-rt/crt/thread.cc), the acquire_semaphore
loop and the wake-up handler (guest-verona-rt/arch/x86_64/cores.asm), the
instruction-pointer rewind (guest-verona-rt/arch/x86_64/inc/macros.asm) and the
ping handshake (guest-verona-rt/arch/x86_64/cores.cc), as atomic steps of one
waiter, any number of releasers, and the interrupt handlers on the waiter's core.
*/
module Semaphore {

  const NOBODY: nat := 0
  const WAITER: nat := 1

  /**
  Where the waiter is in acquire.  Load, Test and Hlt are the instructions between
  acquire_semaphore.loop_suspend and .loop_hlt; Halted is the core stopped inside hlt.
  */
  datatype WaiterPc =
    | Outside
    | SetWaiter
    | Load
    | Test
    | Hlt
    | Halted
    | LoopHlt
    | CompareExchange
    | ClearWaiter

  /** The interrupt handler running on the waiter's core, if any. */
  datatype Handler = NoHandler | WakeupEntered | WakeupCounted | OtherInterrupt

  /** Where a releaser is in release and in ping_core_sync. */
  datatype Releaser =
    | Idle
    | Added(last: nat)
    | SawWaiter(last: nat, seen: nat)
    | ReadGeneration
    | Trigger(generation: nat)
    | Poll(generation: nat)

  /** handled counts the handlers that have finished on the waiter's core, handledAtLoad those before its last load. */
  datatype State = State(
    value: nat,
    waiter: nat,
    generation: nat,
    ipiPending: bool,
    pc: WaiterPc,
    rcx: nat,
    handler: Handler,
    releasers: map<nat, Releaser>,
    releases: nat,
    acquires: nat,
    handled: nat,
    handledAtLoad: nat)

  datatype Action =
    | Run
    | StrayIpi
    | TakeWakeup
    | TakeOther
    | HandlerStep
    | ReleaseInHandler
    | Release(r: nat)

  ghost predicate Init(s: State) {
    && s.value == 0 && s.waiter == NOBODY && s.releases == 0 && s.acquires == 0
    && s.pc == Outside && s.handler == NoHandler
    && WAITER !in s.releasers
    && (forall r :: r in s.releasers ==> s.releasers[r] == Idle)
  }

  /** One instruction of the waiter; it runs only outside handlers and not while halted. */
  ghost predicate WaiterStep(s: State, s': State) {
    && s.handler == NoHandler
    && match s.pc
       case Outside => s' == s.(pc := SetWaiter)
       case SetWaiter => s' == s.(waiter := WAITER, pc := Load)
       case Load => s' == s.(rcx := s.value, pc := Test, handledAtLoad := s.handled)
       case Test => s' == s.(pc := if s.rcx != 0 then CompareExchange else Hlt)
       case Hlt => s' == s.(pc := Halted)
       case Halted => false
       case LoopHlt => s' == s.(pc := Load)
       // rcx is positive here, so the decrement does not wrap.
       case CompareExchange =>
         if s.value == s.rcx && s.rcx > 0
         then s' == s.(value := s.rcx - 1, acquires := s.acquires + 1, pc := ClearWaiter)
         else s' == s.(pc := Load)
       case ClearWaiter => s' == s.(waiter := NOBODY, pc := Outside)
  }

  /** The saved instruction pointer after an interrupt: a halted core resumes after hlt. */
  function Interrupted(pc: WaiterPc): WaiterPc {
    if pc == Halted then LoopHlt else pc
  }

  /** reset_suspend_check */
  function Rewound(pc: WaiterPc): WaiterPc {
    if pc == Load || pc == Test || pc == Hlt then Load else pc
  }

  ghost predicate HandlerStepOk(s: State, s': State) {
    match s.handler
    case NoHandler => false
    case WakeupEntered => s' == s.(generation := s.generation + 1, handler := WakeupCounted)
    case WakeupCounted => s' == s.(pc := Rewound(s.pc), handler := NoHandler, handled := s.handled + 1)
    case OtherInterrupt => s' == s.(pc := Rewound(s.pc), handler := NoHandler, handled := s.handled + 1)
  }

  ghost predicate ReleaserStep(s: State, s': State, r: nat)
    requires r in s.releasers
  {
    match s.releasers[r]
    case Idle =>
      s' == s.(value := s.value + 1, releases := s.releases + 1, releasers := s.releasers[r := Added(s.value)])
    case Added(last) => s' == s.(releasers := s.releasers[r := SawWaiter(last, s.waiter)])
    case SawWaiter(last, seen) =>
      var next := if last == 0 && seen != NOBODY && seen != r then ReadGeneration else Idle;
      s' == s.(releasers := s.releasers[r := next])
    case ReadGeneration => s' == s.(releasers := s.releasers[r := Trigger(s.generation)])
    case Trigger(g) => s' == s.(ipiPending := true, releasers := s.releasers[r := Poll(g)])
    case Poll(g) => s' == s.(releasers := s.releasers[r := if g == s.generation then Trigger(g) else Idle])
  }

  ghost predicate Step(s: State, a: Action, s': State) {
    match a
    case Run => WaiterStep(s, s')
    case StrayIpi => s' == s.(ipiPending := true)
    case TakeWakeup =>
      && s.handler == NoHandler && s.ipiPending
      && s' == s.(ipiPending := false, pc := Interrupted(s.pc), handler := WakeupEntered)
    case TakeOther => s.handler == NoHandler && s' == s.(pc := Interrupted(s.pc), handler := OtherInterrupt)
    case HandlerStep => HandlerStepOk(s, s')
    case ReleaseInHandler =>
      s.handler == OtherInterrupt && s' == s.(value := s.value + 1, releases := s.releases + 1)
    case Release(r) => r in s.releasers && ReleaserStep(s, s', r)
  }

  ghost predicate IsRun(states: seq<State>, actions: seq<Action>) {
    && |states| == |actions| + 1
    && forall i :: 0 <= i < |actions| ==> Step(states[i], actions[i], states[i + 1])
  }

  // --- The invariant ---------------------------------------------------------

  /** The waiter has seen zero and will halt, or has halted, without looking again. */
  ghost predicate Committed(s: State) {
    (s.pc == Test && s.rcx == 0) || s.pc == Hlt || s.pc == Halted
  }

  /** A handler is about to rewind the waiter. */
  ghost predicate AboutToRewind(s: State) {
    s.handler == WakeupCounted || s.handler == OtherInterrupt
  }

  /** r raised the value from zero and has yet to see a handler run on the waiter's core. */
  ghost predicate Waking(s: State, r: nat) {
    && r in s.releasers
    && match s.releasers[r]
       case Idle => false
       case Added(last) => last == 0
       case SawWaiter(last, seen) => last == 0 && seen == WAITER
       case ReadGeneration => true
       case Trigger(g) => g == s.generation
       case Poll(g) => g == s.generation
  }

  ghost predicate NotLost(s: State) {
    Committed(s) && s.value > 0 && !AboutToRewind(s) ==> exists r :: Waking(s, r)
  }

  ghost predicate Local(s: State) {
    && s.value + s.acquires == s.releases
    && WAITER !in s.releasers
    && (s.pc == Outside || s.pc == SetWaiter <==> s.waiter != WAITER)
    && (s.waiter == NOBODY || s.waiter == WAITER)
    && (s.pc == Hlt ==> s.rcx == 0)
    && (s.pc == CompareExchange ==> s.rcx > 0)
    && (s.pc == Halted ==> s.handler == NoHandler)
    && (s.pc == Test || s.pc == Hlt || s.pc == Halted ==> s.handled == s.handledAtLoad)
  }

  ghost predicate Inv(s: State) {
    Local(s) && NotLost(s)
  }

  lemma InitInv(s: State)
    requires Init(s)
    ensures Inv(s)
  {
  }

  lemma LocalStep(s: State, a: Action, s': State)
    requires Local(s) && Step(s, a, s')
    ensures Local(s')
  {
  }

  /** Only a handler that will rewind the waiter lets a releaser stop pinging. */
  lemma WakingStays(s: State, a: Action, s': State, r: nat)
    requires Local(s) && Step(s, a, s') && Committed(s) && Waking(s, r)
    requires Committed(s') && !AboutToRewind(s')
    ensures Waking(s', r)
  {
  }

  lemma NotLostStep(s: State, a: Action, s': State)
    requires Inv(s) && Step(s, a, s') && Committed(s') && s'.value > 0 && !AboutToRewind(s')
    ensures exists r :: Waking(s', r)
  {
    if Committed(s) && s.value > 0 {
      if AboutToRewind(s) {
        assert false;
      } else {
        var r :| Waking(s, r);
        WakingStays(s, a, s', r);
      }
    } else {
      assert a.Release? && Waking(s', a.r);
    }
  }

  lemma StepInv(s: State, a: Action, s': State)
    requires Inv(s) && Step(s, a, s')
    ensures Inv(s')
  {
    LocalStep(s, a, s');
    if Committed(s') && s'.value > 0 && !AboutToRewind(s') { NotLostStep(s, a, s'); }
  }

  lemma {:induction false} RunInv(states: seq<State>, actions: seq<Action>, i: nat)
    requires IsRun(states, actions) && Init(states[0]) && i < |states|
    ensures Inv(states[i])
  {
    if i == 0 {
      InitInv(states[0]);
    } else {
      RunInv(states, actions, i - 1);
      StepInv(states[i - 1], actions[i - 1], states[i]);
    }
  }

  /**
  No lost wakeup: in every reachable state in which the waiter is committed to hlt, or inside it,
  while the value is positive, either a handler is about to send it back to the check, or some
  releaser that raised the value from zero has not yet seen a handler run and keeps pinging; and
  no handler has finished on its core since it last loaded the value.
  */
  lemma NoLostWakeup(states: seq<State>, actions: seq<Action>, i: nat)
    requires IsRun(states, actions) && Init(states[0]) && i < |states|
    ensures var s := states[i];
            Committed(s) && s.value > 0 ==> AboutToRewind(s) || exists r :: Waking(s, r)
    ensures var s := states[i];
            s.pc == Halted && s.value > 0 ==> s.handler == NoHandler && exists r :: Waking(s, r)
    ensures Committed(states[i]) ==> states[i].handled == states[i].handledAtLoad
  {
    RunInv(states, actions, i);
  }

  /** A call of release, by another thread or from a handler on the waiter's core. */
  predicate Releases(s: State, a: Action) {
    a.ReleaseInHandler? || (a.Release? && a.r in s.releasers && s.releasers[a.r] == Idle)
  }

  predicate Returns(s: State, a: Action) {
    a.Run? && s.pc == ClearWaiter
  }

  function Released(states: seq<State>, actions: seq<Action>, n: nat): nat
    requires n <= |actions| < |states|
  {
    if n == 0 then 0 else Released(states, actions, n - 1) + if Releases(states[n - 1], actions[n - 1]) then 1 else 0
  }

  function Returned(states: seq<State>, actions: seq<Action>, n: nat): nat
    requires n <= |actions| < |states|
  {
    if n == 0 then 0 else Returned(states, actions, n - 1) + if Returns(states[n - 1], actions[n - 1]) then 1 else 0
  }

  /** An acquire that has taken the semaphore and not returned. */
  function Leaving(s: State): nat {
    if s.pc == ClearWaiter then 1 else 0
  }

  lemma BalanceStep(s: State, a: Action, s': State)
    requires Step(s, a, s')
    ensures s'.value + Leaving(s') + (if Returns(s, a) then 1 else 0)
         == s.value + Leaving(s) + (if Releases(s, a) then 1 else 0)
  {
  }

  /**
  In every run the value is the number of calls of release less the number of acquires that have
  returned or are about to: none is lost, and none is counted twice.
  */
  lemma {:induction false} ValueIsBalance(states: seq<State>, actions: seq<Action>, n: nat)
    requires IsRun(states, actions) && Init(states[0]) && n <= |actions|
    ensures states[n].value + Returned(states, actions, n) + Leaving(states[n]) == Released(states, actions, n)
  {
    if n > 0 {
      var m := n - 1;
      ValueIsBalance(states, actions, m);
      assert Step(states[m], actions[m], states[m + 1]);
      BalanceStep(states[m], actions[m], states[n]);
    }
  }

  // --- Progress ------------------------------------------------------------------

  ghost predicate Reaches(s: State, actions: seq<Action>, t: State)
    decreases |actions|
  {
    if actions == [] then s == t
    else exists m :: Step(s, actions[0], m) && Reaches(m, actions[1..], t)
  }

  lemma {:induction false} ReachesConcat(s: State, p: seq<Action>, m: State, q: seq<Action>, t: State)
    requires Reaches(s, p, m) && Reaches(m, q, t)
    ensures Reaches(s, p + q, t)
    decreases |p|
  {
    if p == [] {
      assert p + q == q;
    } else {
      var n :| Step(s, p[0], n) && Reaches(n, p[1..], m);
      ReachesConcat(n, p[1..], m, q, t);
      assert (p + q)[0] == p[0] && (p + q)[1..] == p[1..] + q;
    }
  }

  lemma OneStep(s: State, a: Action, t: State)
    requires Step(s, a, t)
    ensures Reaches(s, [a], t)
  {
    assert [a][1..] == [] && Reaches(t, [], t);
  }

  lemma Then(s: State, p: seq<Action>, m: State, a: Action, t: State)
    requires Reaches(s, p, m) && Step(m, a, t)
    ensures Reaches(s, p + [a], t)
  {
    OneStep(m, a, t);
    ReachesConcat(s, p, m, [a], t);
  }

  /** No stray interrupt and no release from a handler is needed. */
  ghost predicate OnlyProtocol(actions: seq<Action>) {
    forall a :: a in actions ==> a.Run? || a.TakeWakeup? || a.HandlerStep? || a.Release?
  }

  /** The waiter calls acquire next, or has called it and not yet taken the semaphore. */
  predicate InAcquire(pc: WaiterPc) {
    pc != ClearWaiter
  }

  predicate OnlyWaiter(actions: seq<Action>) {
    forall a :: a in actions ==> a == Run
  }

  /** One more acquire has completed and the call has returned. */
  ghost predicate Acquired(s: State, t: State) {
    && s.value > 0
    && t == s.(value := s.value - 1, acquires := s.acquires + 1, pc := Outside, waiter := NOBODY,
               rcx := t.rcx, handledAtLoad := t.handledAtLoad)
  }

  /** An exchange that finds the value it loaded takes the semaphore, and acquire returns. */
  lemma FinishFromExchange(s: State) returns (actions: seq<Action>, t: State)
    requires s.pc == CompareExchange && s.handler == NoHandler && s.value == s.rcx > 0
    ensures Reaches(s, actions, t) && OnlyWaiter(actions) && |actions| == 2 && Acquired(s, t)
  {
    var s1 := s.(value := s.rcx - 1, acquires := s.acquires + 1, pc := ClearWaiter);
    t := s1.(waiter := NOBODY, pc := Outside);
    OneStep(s, Run, s1);
    Then(s, [Run], s1, Run, t);
    actions := [Run] + [Run];
  }

  /** With the value positive and no handler running, a waiter at the top of the loop gets through. */
  lemma FinishFromLoad(s: State) returns (actions: seq<Action>, t: State)
    requires s.pc == Load && s.handler == NoHandler && s.value > 0
    ensures Reaches(s, actions, t) && OnlyWaiter(actions) && |actions| == 4 && Acquired(s, t)
  {
    var s1 := s.(rcx := s.value, pc := Test, handledAtLoad := s.handled);
    var s2 := s1.(pc := CompareExchange);
    OneStep(s, Run, s1);
    Then(s, [Run], s1, Run, s2);
    var p;
    p, t := FinishFromExchange(s2);
    ReachesConcat(s, [Run] + [Run], s2, p, t);
    actions := [Run] + [Run] + p;
  }

  /** One step of the waiter that leads to the top of the loop. */
  lemma FinishViaLoad(s: State, m: State) returns (actions: seq<Action>, t: State)
    requires WaiterStep(s, m) && m.pc == Load && m.handler == NoHandler && m.value == s.value > 0
    requires m == s.(pc := Load, waiter := m.waiter)
    ensures Reaches(s, actions, t) && OnlyWaiter(actions) && |actions| == 5 && Acquired(s, t)
  {
    OneStep(s, Run, m);
    var p;
    p, t := FinishFromLoad(m);
    ReachesConcat(s, [Run], m, p, t);
    actions := [Run] + p;
  }

  /**
  From the call of acquire on, unless it has already seen zero, the waiter gets through in at most six
  steps of its own, also when the value has changed since it was loaded.
  */
  lemma FinishAlone(s: State) returns (actions: seq<Action>, t: State)
    requires Local(s) && InAcquire(s.pc) && !Committed(s) && s.handler == NoHandler && s.value > 0
    ensures Reaches(s, actions, t) && OnlyWaiter(actions) && |actions| <= 6 && Acquired(s, t)
  {
    match s.pc
    case Outside =>
      var m := s.(pc := SetWaiter);
      var p;
      p, t := FinishViaLoad(m, m.(waiter := WAITER, pc := Load));
      OneStep(s, Run, m);
      ReachesConcat(s, [Run], m, p, t);
      actions := [Run] + p;
    case SetWaiter => actions, t := FinishViaLoad(s, s.(waiter := WAITER, pc := Load));
    case Load => actions, t := FinishFromLoad(s);
    case LoopHlt => actions, t := FinishViaLoad(s, s.(pc := Load));
    case CompareExchange =>
      if s.value == s.rcx { actions, t := FinishFromExchange(s); }
      else { actions, t := FinishViaLoad(s, s.(pc := Load)); }
    case Test =>
      var m := s.(pc := CompareExchange);
      var p;
      if s.value == s.rcx { p, t := FinishFromExchange(m); } else { p, t := FinishViaLoad(m, m.(pc := Load)); }
      OneStep(s, Run, m);
      ReachesConcat(s, [Run], m, p, t);
      actions := [Run] + p;
  }

  /** A waiter that has seen zero halts. */
  lemma GoesToHalt(s: State) returns (actions: seq<Action>, t: State)
    requires Local(s) && Committed(s) && s.handler == NoHandler
    ensures Reaches(s, actions, t) && OnlyWaiter(actions) && |actions| <= 2 && t == s.(pc := Halted)
  {
    actions, t := [], s.(pc := Halted);
    if s.pc == Hlt {
      OneStep(s, Run, t);
      actions := [Run];
    } else if s.pc == Test {
      var m := s.(pc := Hlt);
      OneStep(s, Run, m);
      Then(s, [Run], m, Run, t);
      actions := [Run] + [Run];
    }
  }

  /** A handler comes to its end. */
  lemma HandlerEnds(s: State) returns (actions: seq<Action>, t: State)
    ensures Reaches(s, actions, t) && OnlyProtocol(actions) && |actions| <= 2 && t.handler == NoHandler
    ensures t.value == s.value && t.acquires == s.acquires && t.releases == s.releases
    ensures InAcquire(s.pc) ==> InAcquire(t.pc)
  {
    match s.handler
    case NoHandler => actions, t := [], s;
    case OtherInterrupt =>
      t := s.(pc := Rewound(s.pc), handler := NoHandler, handled := s.handled + 1);
      OneStep(s, HandlerStep, t);
      actions := [HandlerStep];
    case WakeupCounted =>
      t := s.(pc := Rewound(s.pc), handler := NoHandler, handled := s.handled + 1);
      OneStep(s, HandlerStep, t);
      actions := [HandlerStep];
    case WakeupEntered =>
      var m := s.(generation := s.generation + 1, handler := WakeupCounted);
      t := m.(pc := Rewound(s.pc), handler := NoHandler, handled := s.handled + 1);
      OneStep(s, HandlerStep, m);
      Then(s, [HandlerStep], m, HandlerStep, t);
      actions := [HandlerStep] + [HandlerStep];
  }

  /** A waking releaser gets an interrupt pending at the waiter's core. */
  lemma RaiseIpi(s: State, r: nat) returns (actions: seq<Action>, t: State)
    requires Inv(s) && Waking(s, r) && s.waiter == WAITER
    ensures Reaches(s, actions, t) && OnlyProtocol(actions) && |actions| <= 4
    ensures t == s.(ipiPending := true, releasers := t.releasers)
  {
    actions, t := [], s;
    match s.releasers[r]
    case Added(last) =>
      var s1 := s.(releasers := s.releasers[r := SawWaiter(last, s.waiter)]);
      var s2 := s1.(releasers := s1.releasers[r := ReadGeneration]);
      var s3 := s2.(releasers := s2.releasers[r := Trigger(s.generation)]);
      t := s3.(ipiPending := true, releasers := s3.releasers[r := Poll(s.generation)]);
      OneStep(s, Release(r), s1);
      Then(s, [Release(r)], s1, Release(r), s2);
      Then(s, [Release(r)] + [Release(r)], s2, Release(r), s3);
      Then(s, [Release(r)] + [Release(r)] + [Release(r)], s3, Release(r), t);
      actions := [Release(r)] + [Release(r)] + [Release(r)] + [Release(r)];
    case SawWaiter(last, seen) =>
      var s2 := s.(releasers := s.releasers[r := ReadGeneration]);
      var s3 := s2.(releasers := s2.releasers[r := Trigger(s.generation)]);
      t := s3.(ipiPending := true, releasers := s3.releasers[r := Poll(s.generation)]);
      OneStep(s, Release(r), s2);
      Then(s, [Release(r)], s2, Release(r), s3);
      Then(s, [Release(r)] + [Release(r)], s3, Release(r), t);
      actions := [Release(r)] + [Release(r)] + [Release(r)];
    case ReadGeneration =>
      var s3 := s.(releasers := s.releasers[r := Trigger(s.generation)]);
      t := s3.(ipiPending := true, releasers := s3.releasers[r := Poll(s.generation)]);
      OneStep(s, Release(r), s3);
      Then(s, [Release(r)], s3, Release(r), t);
      actions := [Release(r)] + [Release(r)];
    case Trigger(g) =>
      t := s.(ipiPending := true, releasers := s.releasers[r := Poll(g)]);
      OneStep(s, Release(r), t);
      actions := [Release(r)];
    case Poll(g) =>
      var s3 := s.(releasers := s.releasers[r := Trigger(g)]);
      t := s3.(ipiPending := true, releasers := s3.releasers[r := Poll(g)]);
      OneStep(s, Release(r), s3);
      Then(s, [Release(r)], s3, Release(r), t);
      actions := [Release(r)] + [Release(r)];
  }

  /** A pending wake-up interrupt brings a halted waiter back to the check. */
  lemma WakeByIpi(s: State) returns (actions: seq<Action>, t: State)
    requires s.pc == Halted && s.handler == NoHandler && s.ipiPending
    ensures Reaches(s, actions, t) && OnlyProtocol(actions) && |actions| == 4
    ensures t == s.(ipiPending := false, generation := s.generation + 1, pc := Load, handled := s.handled + 1)
  {
    var s1 := s.(ipiPending := false, pc := LoopHlt, handler := WakeupEntered);
    var s2 := s1.(generation := s1.generation + 1, handler := WakeupCounted);
    var s3 := s2.(handler := NoHandler, handled := s.handled + 1);
    t := s3.(pc := Load);
    OneStep(s, TakeWakeup, s1);
    Then(s, [TakeWakeup], s1, HandlerStep, s2);
    Then(s, [TakeWakeup] + [HandlerStep], s2, HandlerStep, s3);
    Then(s, [TakeWakeup] + [HandlerStep] + [HandlerStep], s3, Run, t);
    actions := [TakeWakeup] + [HandlerStep] + [HandlerStep] + [Run];
  }

  /** A halted waiter with a positive value is never stuck: the releasers' own steps wake it and it acquires. */
  lemma HaltedWaiterCanAcquire(s: State) returns (actions: seq<Action>, t: State)
    requires Inv(s) && s.pc == Halted && s.value > 0
    ensures Reaches(s, actions, t) && OnlyProtocol(actions) && |actions| <= 12
    ensures t.acquires == s.acquires + 1 && t.releases == s.releases && t.pc == Outside
  {
    var r :| Waking(s, r);
    var p1, s1 := RaiseIpi(s, r);
    var p2, s2 := WakeByIpi(s1);
    var p3;
    p3, t := FinishFromLoad(s2);
    ReachesConcat(s, p1, s1, p2, s2);
    ReachesConcat(s, p1 + p2, s2, p3, t);
    actions := p1 + p2 + p3;
  }

  lemma {:induction false} ReachesInv(s: State, actions: seq<Action>, t: State)
    requires Inv(s) && Reaches(s, actions, t)
    ensures Inv(t)
    decreases |actions|
  {
    if actions != [] {
      var m :| Step(s, actions[0], m) && Reaches(m, actions[1..], t);
      StepInv(s, actions[0], m);
      ReachesInv(m, actions[1..], t);
    }
  }

  lemma AcquireCompletesUnhandled(s: State) returns (actions: seq<Action>, t: State)
    requires Inv(s) && InAcquire(s.pc) && s.value > 0 && s.handler == NoHandler
    ensures Reaches(s, actions, t) && OnlyProtocol(actions) && |actions| <= 14
    ensures !Committed(s) ==> OnlyWaiter(actions) && |actions| <= 6
    ensures t.acquires == s.acquires + 1 && t.releases == s.releases && t.pc == Outside
  {
    if !Committed(s) {
      actions, t := FinishAlone(s);
    } else {
      var p, m := GoesToHalt(s);
      ReachesInv(s, p, m);
      var q;
      q, t := HaltedWaiterCanAcquire(m);
      ReachesConcat(s, p, m, q, t);
      actions := p + q;
    }
  }

  /**
  Wherever the waiter is in acquire, and whatever handler is running: with a positive value the
  protocol's own steps complete an acquire within sixteen steps.  Unless the waiter has already seen
  zero or is interrupted, six steps of its own do.
  */
  lemma {:induction false} AcquireCompletes(states: seq<State>, actions: seq<Action>, i: nat)
    returns (rest: seq<Action>, t: State)
    requires IsRun(states, actions) && Init(states[0]) && i < |states|
    requires InAcquire(states[i].pc) && states[i].value > 0
    ensures Reaches(states[i], rest, t) && OnlyProtocol(rest) && |rest| <= 16
    ensures states[i].handler == NoHandler && !Committed(states[i]) ==> OnlyWaiter(rest) && |rest| <= 6
    ensures t.acquires == states[i].acquires + 1 && t.releases == states[i].releases && t.pc == Outside
  {
    RunInv(states, actions, i);
    var s := states[i];
    if s.handler == NoHandler {
      rest, t := AcquireCompletesUnhandled(s);
    } else {
      var p, m := HandlerEnds(s);
      ReachesInv(s, p, m);
      var q;
      q, t := AcquireCompletesUnhandled(m);
      ReachesConcat(s, p, m, q, t);
      rest := p + q;
    }
  }

  // --- Progress on every schedule ------------------------------------------------

  /** How many steps of its own a waking releaser needs before an interrupt is pending. */
  function Remaining(s: State, r: nat): nat
    requires r in s.releasers
  {
    if s.ipiPending then 0
    else
      match s.releasers[r]
      case Idle => 0
      case Added(_) => 4
      case SawWaiter(_, _) => 3
      case ReadGeneration => 2
      case Poll(_) => 2
      case Trigger(_) => 1
  }

  /** While the waiter stays halted, whoever moves, the remaining steps never grow, and each step of r uses one up. */
  lemma RemainingFalls(s: State, a: Action, s': State, r: nat)
    requires Local(s) && Step(s, a, s') && Waking(s, r) && s.pc == Halted && s'.pc == Halted
    ensures Waking(s', r) && Remaining(s', r) <= Remaining(s, r)
    ensures a == Release(r) && Remaining(s, r) > 0 ==> Remaining(s', r) < Remaining(s, r)
    ensures Remaining(s, r) == 0 <==> s.ipiPending
  {
    WakingStays(s, a, s', r);
  }

  /** What a releaser still has to do once it need not ping any more. */
  function Leftover(s: State, r: nat): nat
    requires r in s.releasers
  {
    match s.releasers[r]
    case Idle => 0
    case Added(_) => 2
    case SawWaiter(_, _) => 1
    case Poll(_) => 1
    case Trigger(_) => 2
    case ReadGeneration => 3
  }

  /**
  A releaser that is not waking anybody, since the value was not zero, nobody waited, or a handler has run
  since it read the generation, returns within two steps of its own.
  */
  lemma ReleaseReturns(s: State, s': State, r: nat)
    requires Local(s) && r in s.releasers && s.releasers[r] != Idle && Step(s, Release(r), s')
    requires match s.releasers[r]
             case Added(last) => last != 0 || s.waiter == NOBODY
             case SawWaiter(last, seen) => last != 0 || seen == NOBODY
             case Trigger(g) => g != s.generation
             case Poll(g) => g != s.generation
             case _ => false
    ensures Leftover(s, r) <= 2 && Leftover(s', r) == Leftover(s, r) - 1
    ensures s'.value == s.value && s'.generation == s.generation
  {
  }

  /** The steps of r among those from i to n. */
  function StepsOf(actions: seq<Action>, r: nat, i: nat, n: nat): nat
    requires i <= n <= |actions|
  {
    if i == n then 0 else StepsOf(actions, r, i, n - 1) + if actions[n - 1] == Release(r) then 1 else 0
  }

  ghost predicate HaltedFrom(states: seq<State>, i: nat, n: nat)
    requires n < |states|
  {
    forall j: nat :: i <= j <= n ==> states[j].pc == Halted
  }

  lemma {:induction false} StepsUseUp(states: seq<State>, actions: seq<Action>, i: nat, n: nat, r: nat)
    requires IsRun(states, actions) && Init(states[0]) && i <= n < |states|
    requires HaltedFrom(states, i, n) && Waking(states[i], r)
    ensures Waking(states[n], r)
    ensures states[n].ipiPending || Remaining(states[n], r) + StepsOf(actions, r, i, n) <= Remaining(states[i], r)
  {
    if i < n {
      StepsUseUp(states, actions, i, n - 1, r);
      RunInv(states, actions, n - 1);
      RemainingFalls(states[n - 1], actions[n - 1], states[n], r);
    }
  }

  /**
  In every run, on every schedule: whenever the waiter is halted with a positive value, there is a
  releaser such that, for as long as the waiter stays halted, after at most four steps of that
  releaser a wake-up interrupt is pending on the waiter's core, stays pending, and ends the halt when taken.
  */
  lemma {:induction false} WakeIsBounded(states: seq<State>, actions: seq<Action>, i: nat) returns (r: nat)
    requires IsRun(states, actions) && Init(states[0]) && i < |states|
    requires states[i].pc == Halted && states[i].value > 0
    ensures r in states[i].releasers
    ensures forall n: nat {:trigger HaltedFrom(states, i, n)} :: i <= n < |states| && HaltedFrom(states, i, n) ==>
              StepsOf(actions, r, i, n) >= 4 ==> WakeupEndsHalt(states[n])
  {
    RunInv(states, actions, i);
    r :| Waking(states[i], r);
    forall n: nat | i <= n < |states| && HaltedFrom(states, i, n) && StepsOf(actions, r, i, n) >= 4
      ensures WakeupEndsHalt(states[n])
    {
      StepsUseUp(states, actions, i, n, r);
      RunInv(states, actions, n);
      var s' := states[n].(ipiPending := false, pc := LoopHlt, handler := WakeupEntered);
      assert Step(states[n], TakeWakeup, s');
    }
  }

  /** The interrupt is pending and can be taken, which sends the waiter on to look at the value again. */
  ghost predicate WakeupEndsHalt(s: State) {
    s.ipiPending && exists s' :: Step(s, TakeWakeup, s') && s'.pc == LoopHlt
  }
}
