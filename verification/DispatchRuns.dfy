/** What dispatching guarantees over whole runs. */
module DispatchRuns {
  import opened Dispatch

  predicate StepAt(states: seq<State>, actions: seq<Action>, i: nat)
    requires |states| == |actions| + 1 && i < |actions|
  {
    Enabled(states[i], actions[i]) && states[i + 1] == Next(states[i], actions[i])
  }

  ghost predicate IsRun(states: seq<State>, actions: seq<Action>) {
    && |states| == |actions| + 1
    && Start(states[0])
    && forall i: nat {:trigger StepAt(states, actions, i)} :: i < |actions| ==> StepAt(states, actions, i)
  }

  lemma {:induction false} RunInv(states: seq<State>, actions: seq<Action>, n: nat)
    requires IsRun(states, actions) && n <= |actions|
    ensures Inv(states[n]) && |states[n].cores| == |states[0].cores|
  {
    if n == 0 {
      var s := states[0];
      IdleCount(s.cores);
      assert forall c: nat :: 1 <= c < |s.cores| ==> CoreOk(s, c);
    } else {
      RunInv(states, actions, n - 1);
      assert StepAt(states, actions, n - 1);
      StepInv(states[n - 1], actions[n - 1]);
    }
  }

  lemma {:induction false} IdleCount(cores: seq<Core>)
    requires forall c :: 0 <= c < |cores| ==> !Busy(cores[c])
    ensures BusyCount(cores) == 0
  {
    if cores != [] { IdleCount(cores[..|cores| - 1]); }
  }

  // --- Exit ------------------------------------------------------------------------

  predicate IsIdle(k: Core) {
    k.code == NULL && (k.pc == Off || k.pc == Loop)
  }

  /**
  monza_exit is reached exactly through a zero count, and then no task is posted, picked
  up or running on any core and nobody is dispatching, now or at any later step.
  */
  lemma {:induction false} ExitOnlyWhenIdle(states: seq<State>, actions: seq<Action>, n: nat, c: nat)
    requires IsRun(states, actions) && n <= |actions|
    requires states[n].main == Exited && 1 <= c < |states[n].cores|
    ensures states[n].executing == 0 && states[n].dispatch == NoDispatch
    ensures IsIdle(states[n].cores[c])
  {
    RunInv(states, actions, n);
    var s := states[n];
    if s.dispatch != NoDispatch { DispatchIsCounted(s); }
    if Busy(s.cores[c]) { BusyIsCounted(s.cores, c); }
    assert CoreOk(s, c);
  }

  /** The count is zero only after main returned with every core outside a task. */
  lemma {:induction false} CountIsZeroWhenIdle(states: seq<State>, actions: seq<Action>, n: nat)
    requires IsRun(states, actions) && n <= |actions|
    ensures states[n].executing == 0 <==>
            && states[n].main != Active
            && forall c :: 0 <= c < |states[n].cores| ==> !Busy(states[n].cores[c])
  {
    RunInv(states, actions, n);
    var cores := states[n].cores;
    if c :| 0 <= c < |cores| && Busy(cores[c]) {
      BusyIsCounted(cores, c);
    } else {
      IdleCount(cores);
    }
  }

  // --- Tasks -----------------------------------------------------------------------

  predicate Concerns(e: Event, c: nat) {
    (e.Posted? || e.Started? || e.Finished?) && e.c == c
  }

  /** What step i of a run does. */
  ghost function EventAt(states: seq<State>, actions: seq<Action>, i: nat): Event
    requires IsRun(states, actions) && i < |actions|
  {
    assert StepAt(states, actions, i);
    EventOf(states[i], actions[i])
  }

  /** What happened to core c in the first n steps. */
  ghost function Log(states: seq<State>, actions: seq<Action>, n: nat, c: nat): seq<Event>
    requires IsRun(states, actions) && n <= |actions|
  {
    if n == 0 then []
    else Extended(Log(states, actions, n - 1, c), EventAt(states, actions, n - 1), c)
  }

  function Extended(log: seq<Event>, e: Event, c: nat): seq<Event> {
    if Concerns(e, c) then log + [e] else log
  }

  /**
  The events come in threes: a task is posted, that task starts with its own argument,
  and it finishes, before the next one is posted.
  */
  predicate InThrees(log: seq<Event>, c: nat) {
    forall i: nat {:trigger Fits(log, i, c)} :: i < |log| ==> Fits(log, i, c)
  }

  predicate Fits(log: seq<Event>, i: nat, c: nat)
    requires i < |log|
  {
    if i % 3 == 0 then log[i].Posted? && log[i].c == c && log[i].f != NULL
    else if i % 3 == 1 then log[i - 1].Posted? && log[i] == Started(c, log[i - 1].f, log[i - 1].arg)
    else log[i - 1].Started? && log[i] == Finished(c, log[i - 1].f, log[i - 1].arg)
  }

  /** The place in the threes that the state of core c shows. */
  predicate LogOk(log: seq<Event>, s: State, c: nat)
    requires c < |s.cores|
  {
    var k := s.cores[c];
    && InThrees(log, c)
    && (|log| % 3 == 1 <==> k.code != NULL)
    && (|log| % 3 == 2 <==> k.pc.Running?)
    && (k.code != NULL && log != [] ==> log[|log| - 1] == Posted(c, k.code, k.arg))
    && (k.pc.Running? && log != [] ==> log[|log| - 1] == Started(c, k.pc.f, k.pc.arg))
  }

  lemma InThreesExtend(log: seq<Event>, c: nat, e: Event)
    requires InThrees(log, c) && Fits(log + [e], |log|, c)
    ensures InThrees(log + [e], c)
  {
    forall i: nat | i < |log + [e]| ensures Fits(log + [e], i, c) {
      if i < |log| { assert Fits(log, i, c); }
    }
  }

  lemma LogStep(s: State, a: Action, c: nat, log: seq<Event>)
    requires Inv(s) && Enabled(s, a) && 1 <= c < |s.cores|
    requires LogOk(log, s, c)
    ensures c < |Next(s, a).cores| && LogOk(Extended(log, EventOf(s, a), c), Next(s, a), c)
  {
    assert CoreOk(s, c);
    var e := EventOf(s, a);
    if Concerns(e, c) {
      InThreesExtend(log, c, e);
    }
  }

  lemma {:induction false} RunLog(states: seq<State>, actions: seq<Action>, n: nat, c: nat)
    requires IsRun(states, actions) && n <= |actions| && 1 <= c < |states[0].cores|
    ensures |states[n].cores| == |states[0].cores|
    ensures LogOk(Log(states, actions, n, c), states[n], c)
  {
    RunInv(states, actions, n);
    if n > 0 {
      RunLog(states, actions, n - 1, c);
      RunInv(states, actions, n - 1);
      assert StepAt(states, actions, n - 1);
      LogStep(states[n - 1], actions[n - 1], c, Log(states, actions, n - 1, c));
    }
  }

  /** Every task posted to a core runs once, with the function and the argument it was posted with. */
  lemma {:induction false} TasksRunOnce(states: seq<State>, actions: seq<Action>, n: nat, c: nat)
    requires IsRun(states, actions) && n <= |actions| && 1 <= c < |states[0].cores|
    ensures InThrees(Log(states, actions, n, c), c)
  {
    RunLog(states, actions, n, c);
  }

  lemma {:induction false} LogGrows(states: seq<State>, actions: seq<Action>, m: nat, n: nat, c: nat)
    requires IsRun(states, actions) && m <= n <= |actions|
    ensures Log(states, actions, m, c) <= Log(states, actions, n, c)
    decreases n
  {
    if m < n { LogGrows(states, actions, m, n - 1, c); }
  }

  /** Where core c stands when the log has this many events. */
  lemma {:induction false} LogPhase(states: seq<State>, actions: seq<Action>, n: nat, c: nat)
    requires IsRun(states, actions) && n <= |actions| && 1 <= c < |states[0].cores|
    ensures |states[n].cores| == |states[0].cores|
    ensures states[n].cores[c].code == NULL <==> |Log(states, actions, n, c)| % 3 != 1
    ensures states[n].cores[c].done ==> |Log(states, actions, n, c)| % 3 != 2
    ensures InThrees(Log(states, actions, n, c), c)
  {
    RunLog(states, actions, n, c);
    RunInv(states, actions, n);
    assert CoreOk(states[n], c);
  }

  /** Once the log has outgrown the post without stopping right after it, what was posted has run. */
  lemma PostedHasRun(log: seq<Event>, c: nat, i: nat, middle: nat)
    requires InThrees(log, c) && i < middle <= |log| && log[i].Posted? && middle % 3 != 1
    ensures |log| >= i + 2 && log[i + 1] == Started(c, log[i].f, log[i].arg)
    ensures |log| % 3 != 2 ==> |log| >= i + 3 && log[i + 2] == Finished(c, log[i].f, log[i].arg)
  {
    assert Fits(log, i, c);
    assert Fits(log, i + 1, c);
    if i + 2 < |log| { assert Fits(log, i + 2, c); }
  }

  /**
  Step p posts a task to core c, and at the later step r add_thread returns core c's thread
  id.  By then that task has started; and whenever from then on is_thread_done reads true,
  that very task has been started and has returned since it was posted.
  */
  lemma {:induction false} DoneMeansReturned(states: seq<State>, actions: seq<Action>, p: nat, r: nat, n: nat,
                                             c: nat, f: nat, arg: nat)
    requires IsRun(states, actions) && p < r < n <= |actions| && 1 <= c < |states[0].cores|
    requires EventAt(states, actions, p) == Posted(c, f, arg)
    requires EventAt(states, actions, r) == Dispatched(c)
    ensures var before, log := |Log(states, actions, p, c)|, Log(states, actions, n, c);
            && |log| >= before + 2
            && log[before] == Posted(c, f, arg) && log[before + 1] == Started(c, f, arg)
            && |states[n].cores| == |states[0].cores|
            && (states[n].cores[c].done ==> |log| >= before + 3 && log[before + 2] == Finished(c, f, arg))
  {
    var before, log := |Log(states, actions, p, c)|, Log(states, actions, n, c);
    var middle := |Log(states, actions, r, c)|;
    assert before < middle <= |log| && log[before] == Posted(c, f, arg) by {
      assert Log(states, actions, p + 1, c) == Log(states, actions, p, c) + [Posted(c, f, arg)];
      LogGrows(states, actions, p + 1, r, c);
      LogGrows(states, actions, r, n, c);
    }
    assert middle % 3 != 1 by {
      LogPhase(states, actions, r, c);
      NullWhenDispatched(states, actions, r, c);
    }
    LogPhase(states, actions, n, c);
    PostedHasRun(log, c, before, middle);
  }

  lemma {:induction false} NullWhenDispatched(states: seq<State>, actions: seq<Action>, r: nat, c: nat)
    requires IsRun(states, actions) && r < |actions|
    requires EventAt(states, actions, r) == Dispatched(c)
    ensures c < |states[r].cores| && states[r].cores[c].code == NULL
  {
  }

  // --- Progress --------------------------------------------------------------------

  /** The state after at most k further steps of core c alone; a running task is left to run. */
  function Alone(s: State, c: nat, k: nat): State
    decreases k
  {
    if k == 0 || !Enabled(s, CoreStep(c)) then s else Alone(Next(s, CoreStep(c)), c, k - 1)
  }

  function StepsToStart(pc: CorePc): nat {
    match pc
    case Signalled => 6
    case Loop => 5
    case Fetched(_) => 4
    case GotArg(_, _) => 3
    case Counted(_, _) => 2
    case Cleared(_, _) => 1
    case _ => 0
  }

  /** Whatever point of its loop the core is at, it takes up what is posted, without help, within six steps. */
  lemma {:induction false} PostedTaskStarts(s: State, c: nat, k: nat)
    requires Inv(s) && 1 <= c < |s.cores|
    requires s.cores[c].code != NULL && !s.cores[c].pc.Off? && k >= StepsToStart(s.cores[c].pc)
    ensures c < |Alone(s, c, k).cores|
    ensures Alone(s, c, k).cores[c].pc == Running(s.cores[c].code, s.cores[c].arg)
    decreases k
  {
    assert CoreOk(s, c);
    if !s.cores[c].pc.Cleared? {
      CoreStepInv(s, c);
      PostedTaskStarts(Next(s, CoreStep(c)), c, k - 1);
    }
  }
}
