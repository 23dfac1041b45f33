/** What the callers of initialize_threads, add_thread and the shutdown wait get, over whole runs. */
module DispatchCalls {
  import opened Dispatch
  import opened DispatchRuns

  // --- add_thread finds a free core -------------------------------------------------

  /** At step j the dispatcher acts, and core c is done or not. */
  predicate SeenAt(states: seq<State>, actions: seq<Action>, j: nat, c: nat, done: bool)
    requires j < |states| && j < |actions|
  {
    actions[j] == DispatchStep && c < |states[j].cores| && states[j].cores[c].done == done
  }

  /** Core c was not done at some step of the dispatcher after i and before n. */
  ghost predicate SeenBusy(states: seq<State>, actions: seq<Action>, i: nat, n: nat, c: nat)
    requires n <= |states| && n <= |actions|
  {
    exists j: nat {:trigger SeenAt(states, actions, j, c, false)} :: i < j < n && SeenAt(states, actions, j, c, false)
  }

  ghost predicate AllBusyBelow(states: seq<State>, actions: seq<Action>, i: nat, n: nat, k: nat)
    requires n <= |states| && n <= |actions|
  {
    forall c: nat {:trigger SeenBusy(states, actions, i, n, c)} :: 1 <= c < k ==> SeenBusy(states, actions, i, n, c)
  }

  /** At step j core k was done, and every lower core had been seen busy before. */
  ghost predicate FoundAt(states: seq<State>, actions: seq<Action>, i: nat, j: nat, k: nat)
    requires j < |states| && j < |actions|
  {
    && i < j && 1 <= k < states[j].usable
    && SeenAt(states, actions, j, k, true) && AllBusyBelow(states, actions, i, j, k)
  }

  ghost predicate Found(states: seq<State>, actions: seq<Action>, i: nat, n: nat, k: nat)
    requires n <= |states| && n <= |actions|
  {
    exists j: nat {:trigger FoundAt(states, actions, i, j, k)} :: j < n && FoundAt(states, actions, i, j, k)
  }

  /** Step p stores f in the code of core k, with its argument in place. */
  predicate StoredAt(states: seq<State>, actions: seq<Action>, p: nat, k: nat, f: nat, arg: nat)
    requires p < |actions| && p + 1 < |states|
  {
    && actions[p] == DispatchStep && k < |states[p + 1].cores|
    && states[p + 1].cores[k].code == f && states[p + 1].cores[k].arg == arg
  }

  ghost predicate Stored(states: seq<State>, actions: seq<Action>, i: nat, n: nat, k: nat, f: nat, arg: nat)
    requires n < |states| && n <= |actions|
  {
    exists p: nat {:trigger StoredAt(states, actions, p, k, f, arg)} ::
      i < p < n && StoredAt(states, actions, p, k, f, arg)
  }

  ghost predicate NothingPosted(states: seq<State>, actions: seq<Action>, i: nat, n: nat)
    requires IsRun(states, actions) && n <= |actions|
  {
    forall j: nat {:trigger EventAt(states, actions, j)} :: i <= j < n ==> !EventAt(states, actions, j).Posted?
  }

  /** What is known of the call that began at step i, in state n. */
  ghost predicate CallOk(states: seq<State>, actions: seq<Action>, i: nat, n: nat, f: nat, arg: nat)
    requires IsRun(states, actions) && n <= |actions|
  {
    match states[n].dispatch
    case Scan(f', arg', k) =>
      && f' == f && arg' == arg && k >= 1
      && AllBusyBelow(states, actions, i, n, k) && NothingPosted(states, actions, i, n)
    case WriteArg(f', arg', k) => f' == f && arg' == arg && Found(states, actions, i, n, k)
    case StoreCode(f', arg', k) => f' == f && arg' == arg && Found(states, actions, i, n, k)
    case Spin(f', arg', k) =>
      && f' == f && arg' == arg
      && Found(states, actions, i, n, k) && Stored(states, actions, i, n, k, f, arg)
    case _ => false
  }

  /** The dispatch that began at step i is not over in any state up to n. */
  ghost predicate Dispatching(states: seq<State>, i: nat, n: nat)
    requires n < |states|
  {
    forall j: nat {:trigger states[j]} :: i < j <= n ==> states[j].dispatch != NoDispatch
  }

  lemma BusyLater(states: seq<State>, actions: seq<Action>, i: nat, n: nat, k: nat)
    requires n < |states| && n < |actions| && AllBusyBelow(states, actions, i, n, k)
    ensures AllBusyBelow(states, actions, i, n + 1, k)
  {
    var n' := n + 1;
    forall c: nat | 1 <= c < k ensures SeenBusy(states, actions, i, n', c) {
      assert SeenBusy(states, actions, i, n, c);
      var j: nat :| i < j < n && SeenAt(states, actions, j, c, false);
    }
  }

  lemma FoundLater(states: seq<State>, actions: seq<Action>, i: nat, n: nat, k: nat)
    requires n < |states| && n < |actions| && Found(states, actions, i, n, k)
    ensures Found(states, actions, i, n + 1, k)
  {
    var j: nat :| j < n && FoundAt(states, actions, i, j, k);
  }

  lemma StoredLater(states: seq<State>, actions: seq<Action>, i: nat, n: nat, k: nat, f: nat, arg: nat)
    requires n + 1 < |states| && n < |actions| && Stored(states, actions, i, n, k, f, arg)
    ensures Stored(states, actions, i, n + 1, k, f, arg)
  {
    var p: nat :| i < p < n && StoredAt(states, actions, p, k, f, arg);
  }

  /** One step of the scan: a busy core is passed, a done one is taken. */
  lemma ScanStep(states: seq<State>, actions: seq<Action>, i: nat, n: nat, f: nat, arg: nat)
    requires IsRun(states, actions) && i < n < |actions| && actions[n] == DispatchStep && states[n].dispatch.Scan?
    requires CallOk(states, actions, i, n, f, arg) && states[n + 1].dispatch != NoDispatch
    ensures CallOk(states, actions, i, n + 1, f, arg)
  {
    var k := states[n].dispatch.i;
    assert StepAt(states, actions, n);
    BusyLater(states, actions, i, n, k);
    if states[n].cores[k].done {
      assert FoundAt(states, actions, i, n, k);
    } else {
      assert SeenAt(states, actions, n, k, false);
      var n' := n + 1;
      forall c: nat | 1 <= c < k + 1 ensures SeenBusy(states, actions, i, n', c) {
        if c < k { assert SeenBusy(states, actions, i, n', c); }
      }
      forall j: nat | i <= j < n + 1 ensures !EventAt(states, actions, j).Posted? { }
    }
  }

  /** One step of the dispatcher past the scan. */
  lemma PostStep(states: seq<State>, actions: seq<Action>, i: nat, n: nat, f: nat, arg: nat)
    requires IsRun(states, actions) && i < n < |actions| && actions[n] == DispatchStep && !states[n].dispatch.Scan?
    requires CallOk(states, actions, i, n, f, arg) && states[n + 1].dispatch != NoDispatch
    ensures CallOk(states, actions, i, n + 1, f, arg)
  {
    var k := states[n].dispatch.i;
    RunInv(states, actions, n);
    assert StepAt(states, actions, n);
    FoundLater(states, actions, i, n, k);
    if states[n].dispatch.StoreCode? {
      assert StoredAt(states, actions, n, k, f, arg);
    } else if states[n].dispatch.Spin? {
      StoredLater(states, actions, i, n, k, f, arg);
    }
  }

  /** A step of anybody else. */
  lemma OtherStep(states: seq<State>, actions: seq<Action>, i: nat, n: nat, f: nat, arg: nat)
    requires IsRun(states, actions) && i < n < |actions| && actions[n] != DispatchStep
    requires CallOk(states, actions, i, n, f, arg)
    ensures CallOk(states, actions, i, n + 1, f, arg)
  {
    assert StepAt(states, actions, n);
    assert states[n + 1].dispatch == states[n].dispatch;
    var k := states[n].dispatch.i;
    match states[n].dispatch
    case Scan(_, _, _) =>
      BusyLater(states, actions, i, n, k);
      forall j: nat | i <= j < n + 1 ensures !EventAt(states, actions, j).Posted? { }
    case Spin(_, _, _) =>
      FoundLater(states, actions, i, n, k);
      StoredLater(states, actions, i, n, k, f, arg);
    case _ => FoundLater(states, actions, i, n, k);
  }

  lemma {:induction false} CallGoesOn(states: seq<State>, actions: seq<Action>, i: nat, n: nat)
    requires IsRun(states, actions) && i < n <= |actions| && actions[i].AddThread? && Dispatching(states, i, n)
    ensures CallOk(states, actions, i, n, actions[i].f, actions[i].arg)
  {
    var m := n - 1;
    var f, arg := actions[i].f, actions[i].arg;
    if m == i {
      assert StepAt(states, actions, i);
      forall j: nat | i <= j < n ensures !EventAt(states, actions, j).Posted? { }
    } else {
      CallGoesOn(states, actions, i, m);
      assert states[n].dispatch != NoDispatch;
      if actions[m] != DispatchStep { OtherStep(states, actions, i, m, f, arg); }
      else if states[m].dispatch.Scan? { ScanStep(states, actions, i, m, f, arg); }
      else { PostStep(states, actions, i, m, f, arg); }
    }
  }

  /**
  add_thread gives up only after it has seen every usable core busy, and has then posted nothing.
  Otherwise it stores the function and the argument it was called with at the lowest core that it
  saw done, having seen every lower one busy before.
  */
  lemma {:induction false} AddThreadEnds(states: seq<State>, actions: seq<Action>, i: nat, n: nat)
    requires IsRun(states, actions) && i < n < |actions| && actions[i].AddThread? && Dispatching(states, i, n)
    requires states[n + 1].dispatch == NoDispatch
    ensures || (&& AllBusyBelow(states, actions, i, n, states[n].usable)
                && NothingPosted(states, actions, i, n + 1))
            || (exists k: nat :: Found(states, actions, i, n, k) &&
                                 Stored(states, actions, i, n, k, actions[i].f, actions[i].arg))
  {
    CallGoesOn(states, actions, i, n);
    RunInv(states, actions, n);
    assert StepAt(states, actions, n);
    if states[n].dispatch.Scan? {
      forall c: nat | 1 <= c < states[n].usable ensures SeenBusy(states, actions, i, n, c) { }
      forall j: nat | i <= j < n + 1 ensures !EventAt(states, actions, j).Posted? { }
    }
  }

  // --- Dispatching goes on ----------------------------------------------------------

  /** The dispatcher's own steps until its call ends, not counting those it waits. */
  function StepsLeft(s: State): nat {
    var cores := |s.cores|;
    match s.dispatch
    case NoDispatch => 0
    case InitArg(i) => if i < cores then 3 * (cores - i) + cores + 2 else cores + 2
    case InitCode(i) => if i < cores then 3 * (cores - i) + cores + 1 else 0
    case InitReset(i) => if i < cores then 3 * (cores - i) + cores else 0
    case InitWait(i) => if i < cores then cores - i + 1 else 1
    case Scan(_, _, i) => if i < cores then cores - i + 4 else 4
    case WriteArg(_, _, _) => 3
    case StoreCode(_, _, _) => 2
    case Spin(_, _, _) => 1
  }

  /** The core that the dispatcher waits for, if it does. */
  function AwaitedCore(s: State): seq<nat> {
    match s.dispatch
    case Spin(_, _, i) => if i < |s.cores| && s.cores[i].code != NULL then [i] else []
    case InitWait(i) => if i < |s.cores| && !s.cores[i].done then [i] else []
    case _ => []
  }

  /** Each step of the dispatcher brings its call closer to its end, unless it waits for a core. */
  lemma DispatchAdvances(s: State)
    requires Inv(s) && s.dispatch != NoDispatch
    ensures AwaitedCore(s) == [] ==> StepsLeft(DispatchNext(s)) < StepsLeft(s)
    ensures AwaitedCore(s) != [] ==> DispatchNext(s) == s
  {
  }

  /** A core that the dispatcher waits for has been reset, and has something to take up or to finish. */
  lemma AwaitedCoreIsBusy(s: State)
    requires Inv(s) && s.dispatch != NoDispatch && AwaitedCore(s) != []
    ensures var c := AwaitedCore(s)[0];
            && 1 <= c < |s.cores| && !s.cores[c].pc.Off?
            && (s.cores[c].code != NULL || s.cores[c].pc.Running? || s.cores[c].pc.Finishing?)
  {
    assert CoreOk(s, AwaitedCore(s)[0]);
  }

  // --- initialize_threads runs the initialiser everywhere ---------------------------

  /** Core c is past the initialisation. */
  predicate Initialised(s: State, c: nat) {
    match s.dispatch
    case InitArg(_) => false
    case InitCode(_) => false
    case InitReset(_) => false
    case InitWait(i) => c < i
    case _ => s.usable != 1
  }

  /** What the log of core c says about its initialisation. */
  predicate InitOk(log: seq<Event>, s: State, c: nat)
    requires c < |s.cores|
  {
    && (log == [] <==> s.cores[c].pc.Off? && s.dispatch != InitReset(c))
    && (log != [] ==> log[0] == Posted(c, CORE_INITIALIZER, c))
    && (Initialised(s, c) ==> |log| >= 3)
  }

  lemma InitStep(s: State, a: Action, c: nat, log: seq<Event>)
    requires Inv(s) && Enabled(s, a) && 1 <= c < |s.cores| && LogOk(log, s, c) && InitOk(log, s, c)
    ensures c < |Next(s, a).cores| && InitOk(Extended(log, EventOf(s, a), c), Next(s, a), c)
  {
    assert CoreOk(s, c);
    var s' := Next(s, a);
    var log' := Extended(log, EventOf(s, a), c);
    if a.DispatchStep? {
      assert !Initialised(s, c) && Initialised(s', c) ==>
             s.dispatch == InitWait(c) && s.cores[c].done && |log| % 3 == 0;
    }
  }

  lemma {:induction false} RunInit(states: seq<State>, actions: seq<Action>, n: nat, c: nat)
    requires IsRun(states, actions) && n <= |actions| && 1 <= c < |states[0].cores|
    ensures |states[n].cores| == |states[0].cores| && InitOk(Log(states, actions, n, c), states[n], c)
  {
    RunInv(states, actions, n);
    if n > 0 {
      var m := n - 1;
      RunInit(states, actions, m, c);
      RunLog(states, actions, m, c);
      RunInv(states, actions, m);
      assert StepAt(states, actions, m);
      InitStep(states[m], actions[m], c, Log(states, actions, m, c));
    }
  }

  /** Once initialize_threads has returned, the first task of every core was its initialiser, and it has finished. */
  lemma {:induction false} InitializerRanOnEveryCore(states: seq<State>, actions: seq<Action>, n: nat, c: nat)
    requires IsRun(states, actions) && n <= |actions| && 1 <= c < |states[0].cores|
    requires states[n].usable > 1 && !IsInit(states[n].dispatch)
    ensures var log := Log(states, actions, n, c);
            && |log| >= 3
            && log[..3] == [Posted(c, CORE_INITIALIZER, c), Started(c, CORE_INITIALIZER, c),
                            Finished(c, CORE_INITIALIZER, c)]
  {
    RunInit(states, actions, n, c);
    TasksRunOnce(states, actions, n, c);
    var log := Log(states, actions, n, c);
    assert Fits(log, 1, c) && Fits(log, 2, c);
  }

  // --- The kernel exits -------------------------------------------------------------

  /** After main has returned, the next poll exits as soon as no core is inside a task. */
  lemma {:induction false} ExitsWhenIdle(states: seq<State>, actions: seq<Action>, n: nat)
    requires IsRun(states, actions) && n <= |actions| && states[n].main == Waiting
    ensures Enabled(states[n], MainPoll)
    ensures Next(states[n], MainPoll).main == Exited <==>
            forall c :: 0 <= c < |states[n].cores| ==> !Busy(states[n].cores[c])
  {
    CountIsZeroWhenIdle(states, actions, n);
    RunInv(states, actions, n);
  }
}
