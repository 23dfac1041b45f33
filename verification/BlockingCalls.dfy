/**
What a caller of the mutexes and condition variables gets: which mutexes it holds when a call returns,
that a call goes on whenever it is not asleep, and that nobody spins for ever on a spin lock.
*/
module BlockingCalls {
  import opened Blocking
  import opened BlockingRuns

  // --- What calls return with ------------------------------------------------------

  /** The mutexes a thread holds after a call, given those it held and whether the mutex was taken. */
  function HeldAfter(call: Call, held: set<nat>, taken: bool): set<nat> {
    match call
    case Lock(m) => held + {m}
    case TryLock(m) => if taken then held else held + {m}
    case Unlock(m) => held - {m}
    case Wait(_, _) => held
    case Signal(_) => held
    case Broadcast(_) => held
  }

  /** Where a thread can be inside a call, and what it holds there. */
  predicate Serving(call: Call, held: set<nat>, pc: Position, holds: set<nat>) {
    match pc
    case Idle => false
    case Locking(m, step) =>
      || (call == Lock(m) && holds == if step == LGot then held + {m} else held)
      || (call.Wait? && call.m == m && m in held && holds == if step == LGot then held else held - {m})
    case Unlocking(m, k, step) =>
      && (if k == Return then call == Unlock(m) else call.Wait? && call.m == m && m in held)
      && holds == if step == USpin || step == UStore then held else held - {m}
    case CondWait(c, m, _) => call == Wait(c, m) && m in held && holds == held
    case CondSleep(m) => call.Wait? && call.m == m && m in held && holds == held - {m}
    case Signalling(c, _) => call == Signal(c) && holds == held
    case Broadcasting(c, _) => call == Broadcast(c) && holds == held
  }

  /** A step of t leaves the position of other threads alone, and lists whose spin lock t is not inside. */
  ghost predicate Frame(s: State, s': State, t: nat, x: nat, q: Queue) {
    && (x != t ==> At(s', x) == At(s, x) && Holds(s', x) == Holds(s, x))
    && (!Inside(At(s, t), q) ==> Waiters(s', q) == Waiters(s, q))
  }

  lemma LockFrame(s: State, t: nat, m: nat, step: LockStep, x: nat, q: Queue)
    requires At(s, t) == Locking(m, step) && (step == LSleep ==> Sem(s, t) > 0)
    ensures Frame(s, NextLock(s, t, m, step), t, x, q)
  {
  }

  lemma UnlockFrame(s: State, t: nat, m: nat, k: Cont, step: UnlockStep, x: nat, q: Queue)
    requires At(s, t) == Unlocking(m, k, step)
    ensures Frame(s, NextUnlock(s, t, m, k, step), t, x, q)
  {
  }

  lemma WaitFrame(s: State, t: nat, c: nat, m: nat, step: WaitStep, x: nat, q: Queue)
    requires At(s, t) == CondWait(c, m, step)
    ensures Frame(s, NextWait(s, t, c, m, step), t, x, q)
  {
  }

  lemma SignalFrame(s: State, t: nat, c: nat, step: SignalStep, x: nat, q: Queue)
    requires At(s, t) == Signalling(c, step)
    ensures Frame(s, NextSignal(s, t, c, step), t, x, q)
  {
  }

  lemma BroadcastFrame(s: State, t: nat, c: nat, step: BroadcastStep, x: nat, q: Queue)
    requires At(s, t) == Broadcasting(c, step)
    ensures Frame(s, NextBroadcast(s, t, c, step), t, x, q)
  {
  }

  lemma StepFrame(s: State, t: nat, call: Call, x: nat, q: Queue)
    requires Enabled(s, t, call)
    ensures Frame(s, Next(s, t, call), t, x, q)
  {
    match At(s, t)
    case Locking(m, step) => LockFrame(s, t, m, step, x, q);
    case Unlocking(m, k, step) => UnlockFrame(s, t, m, k, step, x, q);
    case CondWait(c, m, step) => WaitFrame(s, t, c, m, step, x, q);
    case Signalling(c, step) => SignalFrame(s, t, c, step, x, q);
    case Broadcasting(c, step) => BroadcastFrame(s, t, c, step, x, q);
    case _ =>
  }

  lemma OthersKeep(s: State, t: nat, call: Call, x: nat)
    requires Enabled(s, t, call) && x != t
    ensures At(Next(s, t, call), x) == At(s, x) && Holds(Next(s, t, call), x) == Holds(s, x)
  {
    StepFrame(s, t, call, x, MutexQ(0));
  }

  lemma CallBegins(s: State, t: nat, call: Call)
    requires Enabled(s, t, call) && At(s, t) == Idle
    ensures var s' := Next(s, t, call);
            if call.TryLock? then At(s', t) == Idle && Holds(s', t) == HeldAfter(call, Holds(s, t), Taken(s, call.m))
            else Serving(call, Holds(s, t), At(s', t), Holds(s', t))
  {
  }

  /** After a step inside a call: still inside it, or returned with what the call promises. */
  predicate GoesOn(s': State, t: nat, call: Call, held: set<nat>) {
    if At(s', t) == Idle then Holds(s', t) == HeldAfter(call, held, false)
    else Serving(call, held, At(s', t), Holds(s', t))
  }

  lemma LockGoesOn(s: State, t: nat, m: nat, step: LockStep, call: Call, held: set<nat>)
    requires At(s, t) == Locking(m, step) && (step == LSleep ==> Sem(s, t) > 0)
    requires Serving(call, held, At(s, t), Holds(s, t))
    ensures GoesOn(NextLock(s, t, m, step), t, call, held)
  {
  }

  lemma UnlockGoesOn(s: State, t: nat, m: nat, k: Cont, step: UnlockStep, call: Call, held: set<nat>)
    requires At(s, t) == Unlocking(m, k, step) && Serving(call, held, At(s, t), Holds(s, t))
    ensures GoesOn(NextUnlock(s, t, m, k, step), t, call, held)
  {
  }

  lemma WaitGoesOn(s: State, t: nat, c: nat, m: nat, step: WaitStep, call: Call, held: set<nat>)
    requires At(s, t) == CondWait(c, m, step) && Serving(call, held, At(s, t), Holds(s, t))
    ensures GoesOn(NextWait(s, t, c, m, step), t, call, held)
  {
  }

  lemma SignalGoesOn(s: State, t: nat, c: nat, step: SignalStep, call: Call, held: set<nat>)
    requires At(s, t) == Signalling(c, step) && Serving(call, held, At(s, t), Holds(s, t))
    ensures GoesOn(NextSignal(s, t, c, step), t, call, held)
  {
  }

  lemma BroadcastGoesOn(s: State, t: nat, c: nat, step: BroadcastStep, call: Call, held: set<nat>)
    requires At(s, t) == Broadcasting(c, step) && Serving(call, held, At(s, t), Holds(s, t))
    ensures GoesOn(NextBroadcast(s, t, c, step), t, call, held)
  {
  }

  lemma CallGoesOn(s: State, t: nat, any: Call, call: Call, held: set<nat>)
    requires Enabled(s, t, any) && Serving(call, held, At(s, t), Holds(s, t))
    ensures GoesOn(Next(s, t, any), t, call, held)
  {
    match At(s, t)
    case Locking(m, step) => LockGoesOn(s, t, m, step, call, held);
    case Unlocking(m, k, step) => UnlockGoesOn(s, t, m, k, step, call, held);
    case CondWait(c, m, step) => WaitGoesOn(s, t, c, m, step, call, held);
    case Signalling(c, step) => SignalGoesOn(s, t, c, step, call, held);
    case Broadcasting(c, step) => BroadcastGoesOn(s, t, c, step, call, held);
    case CondSleep(_) =>
  }

  /** The thread is inside a call in every state between the two. */
  ghost predicate InCallBetween(states: seq<State>, t: nat, i: nat, n: nat)
    requires n <= |states|
  {
    forall j: nat {:trigger At(states[j], t)} :: i < j < n ==> At(states[j], t) != Idle
  }

  lemma {:induction false} CallServed(states: seq<State>, choices: seq<Choice>, t: nat, i: nat, n: nat)
    requires IsRun(states, choices) && i < n <= |choices| && choices[i].t == t && At(states[i], t) == Idle
    requires InCallBetween(states, t, i, n) && !choices[i].call.TryLock?
    ensures GoesOn(states[n], t, choices[i].call, Holds(states[i], t))
  {
    var m := n - 1;
    var c := choices[m];
    if m == i {
      CallBegins(states[i], t, choices[i].call);
    } else {
      CallServed(states, choices, t, i, m);
      assert At(states[m], t) != Idle;
      if c.t == t { CallGoesOn(states[m], t, c.call, choices[i].call, Holds(states[i], t)); }
      else { OthersKeep(states[m], c.t, c.call, t); }
    }
  }

  /**
  When a call returns: lock and wait return with the mutex held, unlock without it, trylock with it iff it
  was free or already held by the caller; and no call changes any other mutex the caller holds.
  */
  lemma {:induction false} CallReturns(states: seq<State>, choices: seq<Choice>, t: nat, i: nat, n: nat)
    requires IsRun(states, choices) && i < n <= |choices| && choices[i].t == t && At(states[i], t) == Idle
    requires InCallBetween(states, t, i, n) && At(states[n], t) == Idle
    ensures var call, before, after := choices[i].call, Holds(states[i], t), Holds(states[n], t);
            match call
            case Lock(m) => after == before + {m}
            case TryLock(m) => (m in after <==> !Taken(states[i], m) || m in before) && after - {m} == before - {m}
            case Unlock(m) => after == before - {m} && m in before
            case Wait(_, m) => after == before && m in after
            case Signal(_) => after == before
            case Broadcast(_) => after == before
  {
    var call := choices[i].call;
    if call.TryLock? {
      CallBegins(states[i], t, call);
      assert n == i + 1;
    } else {
      CallServed(states, choices, t, i, n);
    }
  }

  // --- Calls go on -----------------------------------------------------------------

  /** An upper bound on a thread's own steps until it returns or sleeps. */
  function StepsLeft(s: State, t: nat): nat {
    match At(s, t)
    case Idle => 0
    case Locking(_, step) =>
      (match step case LSpin => 5 case LTry => 4 case LEnqueue => 3 case LUnspin => 2 case LGot => 1 case LSleep => 1)
    case Unlocking(_, k, step) =>
      (match step case USpin => 5 case UStore => 4 case UDequeue => 3 case UUnspin(_) => 2 case UWake(_) => 1)
      + (if k == Return then 0 else 1)
    case CondWait(_, _, step) => (match step case WSpin => 9 case WEnqueue => 8 case WUnspin => 7)
    case CondSleep(_) => 1
    case Signalling(_, step) =>
      (match step case SSpin => 4 case SDequeue => 3 case SUnspin(_) => 2 case SWake(_) => 1)
    case Broadcasting(c, step) =>
      (match step
       case BSpin => 2 * |Waiters(s, CondQ(c))| + 4
       case BDrain(local) => 2 * |Waiters(s, CondQ(c))| + |local| + 3
       case BUnspin(local) => |local| + 2
       case BWake(local) => |local| + 1)
  }

  lemma LockAdvances(s: State, t: nat, m: nat, step: LockStep)
    requires At(s, t) == Locking(m, step) && step != LSleep
    ensures StepsLeft(NextLock(s, t, m, step), t) < StepsLeft(s, t)
  {
  }

  lemma UnlockAdvances(s: State, t: nat, m: nat, k: Cont, step: UnlockStep)
    requires At(s, t) == Unlocking(m, k, step)
    ensures StepsLeft(NextUnlock(s, t, m, k, step), t) < StepsLeft(s, t)
  {
  }

  lemma WaitAdvances(s: State, t: nat, c: nat, m: nat, step: WaitStep)
    requires At(s, t) == CondWait(c, m, step)
    ensures StepsLeft(NextWait(s, t, c, m, step), t) < StepsLeft(s, t)
  {
  }

  lemma SignalAdvances(s: State, t: nat, c: nat, step: SignalStep)
    requires At(s, t) == Signalling(c, step)
    ensures StepsLeft(NextSignal(s, t, c, step), t) < StepsLeft(s, t)
  {
  }

  lemma BroadcastAdvances(s: State, t: nat, c: nat, step: BroadcastStep)
    requires At(s, t) == Broadcasting(c, step)
    ensures StepsLeft(NextBroadcast(s, t, c, step), t) < StepsLeft(s, t)
  {
  }

  /** Every step of a call brings it closer to its return or to its next sleep. */
  lemma OwnStepAdvances(s: State, t: nat, call: Call)
    requires Enabled(s, t, call) && At(s, t) != Idle && EventOf(s, t) != Slept(t)
    ensures StepsLeft(Next(s, t, call), t) < StepsLeft(s, t)
  {
    match At(s, t)
    case Locking(m, step) => LockAdvances(s, t, m, step);
    case Unlocking(m, k, step) => UnlockAdvances(s, t, m, k, step);
    case CondWait(c, m, step) => WaitAdvances(s, t, c, m, step);
    case Signalling(c, step) => SignalAdvances(s, t, c, step);
    case Broadcasting(c, step) => BroadcastAdvances(s, t, c, step);
  }

  /** After a sleep a thread tries for the mutex, with five steps of its own. */
  lemma SleepEnds(s: State, t: nat, call: Call)
    requires Enabled(s, t, call) && EventOf(s, t) == Slept(t)
    ensures StepsLeft(Next(s, t, call), t) == 5
  {
  }

  /** Other threads do not set it back: whoever is past the spin lock of a list has the list to itself. */
  lemma OtherStepKeeps(s: State, w: map<nat, Token>, t: nat, call: Call, x: nat)
    requires Inv(s, w) && Enabled(s, t, call) && x != t
    requires At(s, x).Broadcasting? ==> At(s, x).broadcast != BSpin
    ensures StepsLeft(Next(s, t, call), x) == StepsLeft(s, x)
  {
    var s' := Next(s, t, call);
    OthersKeep(s, t, call, x);
    if At(s, x).Broadcasting? && At(s, x).broadcast.BDrain? {
      var q := CondQ(At(s, x).c);
      assert Inside(At(s, x), q) && !Inside(At(s, t), q);
      StepFrame(s, t, call, x, q);
    }
  }

  // --- Spin locks are let go -------------------------------------------------------

  ghost predicate HasHolder(s: State, q: Queue) {
    Spin(s, q) ==> exists t: nat :: Inside(At(s, t), q)
  }

  lemma HolderStep(s: State, t: nat, call: Call, q: Queue)
    requires HasHolder(s, q) && Enabled(s, t, call)
    ensures HasHolder(Next(s, t, call), q)
  {
    var s' := Next(s, t, call);
    SpinChanges(s, t, call, q);
    if Spin(s', q) {
      if Inside(At(s', t), q) {
      } else {
        var u: nat :| Inside(At(s, u), q);
        OthersKeep(s, t, call, u);
        assert Inside(At(s', u), q);
      }
    }
  }

  lemma {:induction false} RunHolder(states: seq<State>, choices: seq<Choice>, n: nat, q: Queue)
    requires IsRun(states, choices) && n <= |choices|
    ensures HasHolder(states[n], q)
  {
    if n > 0 {
      RunHolder(states, choices, n - 1, q);
      assert choices[n - 1] == choices[n - 1];
      HolderStep(states[n - 1], choices[n - 1].t, choices[n - 1].call, q);
    }
  }

  /** The spin lock that a thread is about to take. */
  function WantsSpin(pc: Position): seq<Queue> {
    match pc
    case Locking(m, step) => if step == LSpin then [MutexQ(m)] else []
    case Unlocking(m, _, step) => if step == USpin then [MutexQ(m)] else []
    case CondWait(c, _, step) => if step == WSpin then [CondQ(c)] else []
    case Signalling(c, step) => if step == SSpin then [CondQ(c)] else []
    case Broadcasting(c, step) => if step == BSpin then [CondQ(c)] else []
    case _ => []
  }

  /**
  In every reachable state a thread inside a call can step, or is asleep without a wake-up, or spins on
  a lock whose holder can step, whatever else happens: there is no deadlock on spin locks.
  */
  lemma {:induction false} NobodySpinsForEver(states: seq<State>, choices: seq<Choice>, n: nat, t: nat, call: Call)
    returns (u: nat)
    requires IsRun(states, choices) && n <= |choices| && At(states[n], t) != Idle
    ensures var s := states[n];
            || Enabled(s, t, call)
            || (Waiting(At(s, t)) && Sem(s, t) == 0)
            || (&& |WantsSpin(At(s, t))| == 1 && Inside(At(s, u), WantsSpin(At(s, t))[0]) && u != t
                && forall any :: Enabled(s, u, any))
  {
    u := 0;
    var s := states[n];
    if !Enabled(s, t, call) && WantsSpin(At(s, t)) != [] {
      var q := WantsSpin(At(s, t))[0];
      RunHolder(states, choices, n, q);
      u :| Inside(At(s, u), q);
    }
  }
}
