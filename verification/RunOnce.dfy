/**
Running an initialiser once: CustomOnceImpl
(guest-verona-rt/monza-libcxx/src/threading.cc), one atomic access to a step, for any number
of threads that may each call execute any number of times.
*/
module RunOnce {

  datatype Control = IDLE | DOING | DONE

  datatype Position = Outside | FastPath | Exchange | Initialising | Storing | Spinning

  datatype State = State(
    control: Control,
    positions: map<nat, Position>,
    started: nat,
    finished: nat,
    returned: nat)

  const START := State(IDLE, map[], 0, 0, 0)

  function At(s: State, t: nat): Position {
    if t in s.positions then s.positions[t] else Outside
  }

  function Moved(s: State, t: nat, p: Position): State {
    s.(positions := s.positions[t := p])
  }

  function Returned(s: State, t: nat): State {
    Moved(s, t, Outside).(returned := s.returned + 1)
  }

  /** The next access of thread t. */
  function Next(s: State, t: nat): State {
    match At(s, t)
    case Outside => Moved(s, t, FastPath)
    case FastPath => if s.control == DONE then Returned(s, t) else Moved(s, t, Exchange)
    case Exchange =>
      if s.control == IDLE then Moved(s, t, Initialising).(control := DOING, started := s.started + 1)
      else Moved(s, t, Spinning)
    case Initialising => Moved(s, t, Storing).(finished := s.finished + 1)
    case Storing => Returned(s, t).(control := DONE)
    case Spinning => if s.control == DONE then Returned(s, t) else s
  }

  ghost predicate IsRun(states: seq<State>, threads: seq<nat>) {
    && |states| == |threads| + 1
    && states[0] == START
    && forall i: nat {:trigger threads[i]} :: i < |threads| ==> states[i + 1] == Next(states[i], threads[i])
  }

  predicate IsRunning(p: Position) {
    p == Initialising || p == Storing
  }

  /** Only one thread runs the initialiser, and only while control is DOING. */
  predicate OnlyOne(s: State, t: nat, u: nat) {
    IsRunning(At(s, t)) ==> s.control == DOING && (IsRunning(At(s, u)) ==> t == u)
  }

  ghost predicate Runner(s: State, t: nat) {
    s.control == DOING && IsRunning(At(s, t)) && s.started == 1
    && s.finished == if At(s, t) == Storing then 1 else 0
  }

  ghost predicate Inv(s: State) {
    && (forall t: nat, u: nat {:trigger OnlyOne(s, t, u)} :: OnlyOne(s, t, u))
    && (s.control == IDLE ==> s.started == 0 && s.finished == 0)
    && (s.control == DOING ==> exists t: nat :: Runner(s, t))
    && (s.control == DONE ==> s.started == 1 && s.finished == 1)
    && (s.returned > 0 ==> s.control == DONE)
  }

  lemma StepInv(s: State, t: nat)
    requires Inv(s)
    ensures Inv(Next(s, t))
  {
    var s' := Next(s, t);
    assert OnlyOne(s, t, t);
    forall x: nat, y: nat ensures OnlyOne(s', x, y) {
      assert OnlyOne(s, x, y) && OnlyOne(s, x, t) && OnlyOne(s, y, t) && OnlyOne(s, t, x);
    }
    if s.control == DOING {
      var r: nat :| Runner(s, r);
      assert OnlyOne(s, r, t);
      if s'.control == DOING { assert Runner(s', r); }
    } else if s'.control == DOING {
      assert Runner(s', t);
    }
  }

  lemma {:induction false} RunInv(states: seq<State>, threads: seq<nat>, n: nat)
    requires IsRun(states, threads) && n <= |threads|
    ensures Inv(states[n])
  {
    if n == 0 {
      assert forall t: nat, u: nat :: OnlyOne(START, t, u);
    } else {
      RunInv(states, threads, n - 1);
      StepInv(states[n - 1], threads[n - 1]);
    }
  }

  /** In every run the initialiser starts at most once, and a call returns only after it has finished. */
  lemma {:induction false} RunsOnceBeforeReturn(states: seq<State>, threads: seq<nat>, n: nat)
    requires IsRun(states, threads) && n <= |threads|
    ensures states[n].finished <= states[n].started <= 1
    ensures states[n].returned > 0 ==> states[n].finished == 1
  {
    RunInv(states, threads, n);
  }

  /** A spinning thread waits for a thread that is running the initialiser, or for nothing. */
  lemma {:induction false} SpinningWaitsForRunner(states: seq<State>, threads: seq<nat>, n: nat, t: nat)
    requires IsRun(states, threads) && n <= |threads| && At(states[n], t) == Spinning
    ensures states[n].control == DONE || exists r: nat :: r != t && IsRunning(At(states[n], r))
  {
    RunInv(states, threads, n);
    NotIdle(states, threads, n, t);
    if states[n].control == DOING {
      var r: nat :| Runner(states[n], r);
    }
  }

  lemma {:induction false} NotIdle(states: seq<State>, threads: seq<nat>, n: nat, t: nat)
    requires IsRun(states, threads) && n <= |threads| && At(states[n], t) == Spinning
    ensures states[n].control != IDLE
  {
    if n > 0 {
      assert states[n] == Next(states[n - 1], threads[n - 1]);
      if At(states[n - 1], t) == Spinning { NotIdle(states, threads, n - 1, t); }
    }
  }

  // --- Progress --------------------------------------------------------------------

  /** The state after k further steps of thread t alone. */
  function Alone(s: State, t: nat, k: nat): State
    decreases k
  {
    if k == 0 then s else Alone(Next(s, t), t, k - 1)
  }

  /** A thread's own steps until its call returns, if nobody else is running the initialiser. */
  function StepsLeft(s: State, t: nat): nat {
    match At(s, t)
    case Outside => 0
    case FastPath => if s.control == DONE then 1 else 4
    case Exchange => if s.control == IDLE then 3 else 2
    case Initialising => 2
    case Storing => 1
    case Spinning => 1
  }

  /** Nobody but t is running the initialiser. */
  ghost predicate Unhindered(s: State, t: nat) {
    && (s.control == DOING ==> IsRunning(At(s, t)))
    && (At(s, t) == Spinning ==> s.control != IDLE)
  }

  lemma AloneAdvances(s: State, t: nat)
    requires Inv(s) && Unhindered(s, t) && At(s, t) != Outside
    ensures Unhindered(Next(s, t), t) && StepsLeft(Next(s, t), t) < StepsLeft(s, t)
    ensures At(Next(s, t), t) == Outside <==> Next(s, t).returned == s.returned + 1
  {
    if IsRunning(At(s, t)) { assert OnlyOne(s, t, t); }
  }

  lemma {:induction false} AloneReturns(s: State, t: nat, k: nat)
    requires Inv(s) && Unhindered(s, t) && At(s, t) != Outside && k == StepsLeft(s, t)
    ensures exists j: nat :: j <= k && At(Alone(s, t, j), t) == Outside && Alone(s, t, j).returned == s.returned + 1
    decreases k
  {
    AloneAdvances(s, t);
    var s' := Next(s, t);
    StepInv(s, t);
    assert Alone(s, t, 1) == Alone(s', t, 0);
    if At(s', t) != Outside {
      AloneReturns(s', t, StepsLeft(s', t));
      var j: nat :| && j <= StepsLeft(s', t) && At(Alone(s', t, j), t) == Outside
                    && Alone(s', t, j).returned == s'.returned + 1;
      assert Alone(s, t, j + 1) == Alone(s', t, j);
    }
  }

  /**
  A call is held up only by another thread that is running the initialiser: otherwise it returns within
  four steps of its own, having run the initialiser itself if nobody had.
  */
  lemma {:induction false} CallCompletes(states: seq<State>, threads: seq<nat>, n: nat, t: nat)
    requires IsRun(states, threads) && n <= |threads| && At(states[n], t) != Outside
    ensures || (exists r: nat :: r != t && IsRunning(At(states[n], r)))
            || (exists j: nat :: j <= 4 && At(Alone(states[n], t, j), t) == Outside &&
                                 Alone(states[n], t, j).returned == states[n].returned + 1)
  {
    RunInv(states, threads, n);
    if At(states[n], t) == Spinning { NotIdle(states, threads, n, t); }
    if states[n].control == DOING && !IsRunning(At(states[n], t)) {
      var r: nat :| Runner(states[n], r);
    } else {
      AloneReturns(states[n], t, StepsLeft(states[n], t));
    }
  }
}
