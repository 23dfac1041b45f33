/**
Handing tasks to the secondary cores: initialize_threads and add_thread
(guest-verona-rt/crt/thread.cc), the ap_reset loop that picks tasks up
(guest-verona-rt/arch/x86_64/cores.asm) and the shutdown wait of monza_main
(guest-verona-rt/crt/monza_main.cc), one memory access to a step.
*/
module Dispatch {

  const NULL: nat := 0
  const CORE_INITIALIZER: nat := 1
  const MAIN: nat := 0

  /**
  A secondary core in its loop; f is rax and arg is rdi.  Each constructor names the
  last thing done: Counted has incremented executing_cores, Cleared has reset the done
  flag, Running is inside a task, Signalled has set the done flag again.
  */
  datatype CorePc =
    | Off
    | Loop
    | Fetched(f: nat)
    | GotArg(f: nat, arg: nat)
    | Counted(f: nat, arg: nat)
    | Cleared(f: nat, arg: nat)
    | Running(f: nat, arg: nat)
    | Finishing
    | Signalled

  /** A ThreadExecutionContext with the core that polls it. */
  datatype Core = Core(code: nat, arg: nat, done: bool, pc: CorePc)

  /** Where the one dispatching thread is in initialize_threads or add_thread. */
  datatype Dispatch =
    | NoDispatch
    | InitArg(i: nat)
    | InitCode(i: nat)
    | InitReset(i: nat)
    | InitWait(i: nat)
    | Scan(f: nat, arg: nat, i: nat)
    | WriteArg(f: nat, arg: nat, i: nat)
    | StoreCode(f: nat, arg: nat, i: nat)
    | Spin(f: nat, arg: nat, i: nat)

  datatype MainPc = Active | Waiting | Exited

  /** cores[0] is the core running main; its slot is never polled. */
  datatype State = State(
    cores: seq<Core>,
    usable: nat,
    executing: int,
    main: MainPc,
    dispatcher: nat,
    dispatch: Dispatch)

  datatype Action =
    | CoreStep(c: nat)
    | TaskReturn(c: nat)
    | Initialize
    | AddThread(t: nat, f: nat, arg: nat)
    | DispatchStep
    | MainReturn
    | MainPoll

  datatype Event =
    | Silent
    | Posted(c: nat, f: nat, arg: nat)
    | Started(c: nat, f: nat, arg: nat)
    | Finished(c: nat, f: nat, arg: nat)
    | Dispatched(c: nat)

  ghost predicate Start(s: State) {
    && |s.cores| > 0
    && (forall c :: 0 <= c < |s.cores| ==> s.cores[c] == Core(NULL, 0, false, Off))
    && s.usable == 1 && s.executing == 1 && s.main == Active && s.dispatch == NoDispatch
  }

  /** Thread 0 is main; thread c is whatever task core c is running. */
  predicate IsActive(s: State, t: nat) {
    if t == MAIN then s.main == Active else t < |s.cores| && s.cores[t].pc.Running?
  }

  predicate IsDispatching(s: State, t: nat) {
    s.dispatch != NoDispatch && s.dispatcher == t
  }

  /** At most one thread dispatches at a time, and cores are initialised once. */
  predicate Enabled(s: State, a: Action) {
    match a
    case CoreStep(c) => 1 <= c < |s.cores| && !s.cores[c].pc.Off? && !s.cores[c].pc.Running?
    case TaskReturn(c) => 1 <= c < |s.cores| && s.cores[c].pc.Running? && !IsDispatching(s, c)
    case Initialize => s.dispatch == NoDispatch && s.main == Active && s.usable == 1
    case AddThread(t, _, _) => s.dispatch == NoDispatch && IsActive(s, t)
    case DispatchStep => s.dispatch != NoDispatch
    case MainReturn => s.main == Active && !IsDispatching(s, MAIN)
    case MainPoll => s.main == Waiting
  }

  function CoreNext(k: Core): Core {
    match k.pc
    case Off => k
    case Loop => if k.code == NULL then k else k.(pc := Fetched(k.code))
    case Fetched(f) => k.(pc := GotArg(f, k.arg))
    case GotArg(f, arg) => k.(pc := Counted(f, arg))
    case Counted(f, arg) => k.(done := false, pc := Cleared(f, arg))
    case Cleared(f, arg) => k.(code := NULL, pc := Running(f, arg))
    case Running(_, _) => k
    case Finishing => k.(done := true, pc := Signalled)
    case Signalled => k.(pc := Loop)
  }

  function Counting(k: Core): int {
    match k.pc
    case GotArg(_, _) => 1
    case Signalled => -1
    case _ => 0
  }

  function WithCore(s: State, c: nat, k: Core): State
    requires c < |s.cores|
  {
    s.(cores := s.cores[c := k])
  }

  /** One step of initialize_threads or add_thread; outside the array nothing is done. */
  function DispatchNext(s: State): State {
    var d := s.dispatch;
    match d
    case NoDispatch => s
    case InitArg(i) =>
      if i < |s.cores| then WithCore(s, i, s.cores[i].(arg := i)).(dispatch := InitCode(i))
      else s.(dispatch := InitWait(1))
    case InitCode(i) =>
      if i < |s.cores|
      then WithCore(s, i, s.cores[i].(code := CORE_INITIALIZER)).(dispatch := InitReset(i))
      else s
    case InitReset(i) =>
      if i < |s.cores| then WithCore(s, i, s.cores[i].(pc := Loop)).(dispatch := InitArg(i + 1)) else s
    case InitWait(i) =>
      if i >= |s.cores| then s.(dispatch := NoDispatch)
      else if s.cores[i].done then s.(dispatch := InitWait(i + 1)) else s
    case Scan(f, arg, i) =>
      if i >= s.usable || i >= |s.cores| then s.(dispatch := NoDispatch)
      else if s.cores[i].done then s.(dispatch := WriteArg(f, arg, i))
      else s.(dispatch := Scan(f, arg, i + 1))
    case WriteArg(f, arg, i) =>
      if i < |s.cores| then WithCore(s, i, s.cores[i].(arg := arg)).(dispatch := StoreCode(f, arg, i)) else s
    case StoreCode(f, arg, i) =>
      if i < |s.cores| then WithCore(s, i, s.cores[i].(code := f)).(dispatch := Spin(f, arg, i)) else s
    case Spin(_, _, i) =>
      if i < |s.cores| && s.cores[i].code == NULL then s.(dispatch := NoDispatch) else s
  }

  function Next(s: State, a: Action): State
    requires Enabled(s, a)
  {
    match a
    case CoreStep(c) =>
      WithCore(s, c, CoreNext(s.cores[c])).(executing := s.executing + Counting(s.cores[c]))
    case TaskReturn(c) => WithCore(s, c, s.cores[c].(pc := Finishing))
    case Initialize => s.(usable := |s.cores|, dispatcher := MAIN, dispatch := InitArg(1))
    case AddThread(t, f, arg) => s.(dispatcher := t, dispatch := Scan(f, arg, 1))
    case DispatchStep => DispatchNext(s)
    case MainReturn => s.(executing := s.executing - 1, main := Waiting)
    case MainPoll => if s.executing > 0 then s else s.(main := Exited)
  }

  function DispatchEvent(s: State): Event {
    match s.dispatch
    case InitCode(i) => Posted(i, CORE_INITIALIZER, i)
    case StoreCode(f, arg, i) => if f == NULL then Silent else Posted(i, f, arg)
    case Spin(_, _, i) => if i < |s.cores| && s.cores[i].code == NULL then Dispatched(i) else Silent
    case _ => Silent
  }

  function EventOf(s: State, a: Action): Event
    requires Enabled(s, a)
  {
    match a
    case CoreStep(c) =>
      if s.cores[c].pc.Cleared? then Started(c, s.cores[c].pc.f, s.cores[c].pc.arg) else Silent
    case TaskReturn(c) => Finished(c, s.cores[c].pc.f, s.cores[c].pc.arg)
    case DispatchStep => DispatchEvent(s)
    case _ => Silent
  }

  // --- The invariant ---------------------------------------------------------------

  predicate IsInit(d: Dispatch) {
    d.InitArg? || d.InitCode? || d.InitReset? || d.InitWait?
  }

  /** The dispatcher is waiting for core c to take up f with argument arg. */
  predicate Posting(d: Dispatch, c: nat, f: nat, arg: nat) {
    match d
    case Spin(f', arg', i) => c == i && f == f' && arg == arg'
    case InitArg(i) => c < i && f == CORE_INITIALIZER && arg == c
    case InitCode(i) => c < i && f == CORE_INITIALIZER && arg == c
    case InitReset(i) => c <= i && f == CORE_INITIALIZER && arg == c
    case InitWait(i) => c >= i && f == CORE_INITIALIZER && arg == c
    case _ => false
  }

  predicate Unreset(s: State, c: nat) {
    match s.dispatch
    case InitArg(i) => c >= i
    case InitCode(i) => c >= i
    case InitReset(i) => c >= i
    case _ => !IsInit(s.dispatch) && s.usable == 1
  }

  predicate CoreOk(s: State, c: nat)
    requires c < |s.cores|
  {
    var k := s.cores[c];
    && (k.code != NULL ==> Posting(s.dispatch, c, k.code, k.arg))
    && (k.pc.Off? <==> Unreset(s, c))
    && (IsInit(s.dispatch) && k.done ==> k.code == NULL)
    && match k.pc
       case Off => !k.done && (k.code != NULL <==> s.dispatch == InitReset(c))
       case Loop => !k.done ==> k.code != NULL
       case Fetched(f) => k.code == f != NULL
       case GotArg(f, arg) => k.code == f != NULL && k.arg == arg
       case Counted(f, arg) => k.code == f != NULL && k.arg == arg
       case Cleared(f, arg) => k.code == f != NULL && k.arg == arg && !k.done
       case Running(_, _) => k.code == NULL && !k.done
       case Finishing => k.code == NULL && !k.done
       case Signalled => k.done
  }

  predicate TargetOk(s: State, i: nat) {
    1 <= i < |s.cores| && s.cores[i].done && s.cores[i].code == NULL
  }

  predicate DispatchOk(s: State) {
    match s.dispatch
    case NoDispatch => true
    case InitArg(i) => i >= 1
    case InitCode(i) => 1 <= i < |s.cores| && s.cores[i].arg == i
    case InitReset(i) => 1 <= i < |s.cores| && s.cores[i].code == CORE_INITIALIZER
    case InitWait(i) => i >= 1
    case Scan(_, _, i) => i >= 1
    case WriteArg(_, _, i) => TargetOk(s, i)
    case StoreCode(_, arg, i) => TargetOk(s, i) && s.cores[i].arg == arg
    case Spin(_, _, i) => 1 <= i < |s.cores|
  }

  predicate Busy(k: Core) {
    k.pc.Counted? || k.pc.Cleared? || k.pc.Running? || k.pc.Finishing? || k.pc.Signalled?
  }

  function BusyCount(cores: seq<Core>): nat {
    if cores == [] then 0
    else BusyCount(cores[..|cores| - 1]) + if Busy(cores[|cores| - 1]) then 1 else 0
  }

  lemma {:induction false} BusyCountUpdate(cores: seq<Core>, c: nat, k: Core)
    requires c < |cores|
    ensures BusyCount(cores[c := k])
         == BusyCount(cores) - (if Busy(cores[c]) then 1 else 0) + if Busy(k) then 1 else 0
  {
    var n := |cores| - 1;
    if c == n {
      assert cores[c := k][..n] == cores[..n];
    } else {
      BusyCountUpdate(cores[..n], c, k);
      assert cores[c := k][..n] == cores[..n][c := k];
    }
  }

  lemma {:induction false} BusyIsCounted(cores: seq<Core>, c: nat)
    requires c < |cores| && Busy(cores[c])
    ensures BusyCount(cores) > 0
  {
    if c < |cores| - 1 { BusyIsCounted(cores[..|cores| - 1], c); }
  }

  /** executing_cores counts main while it is active and every core inside a task. */
  ghost predicate Counts(s: State) {
    s.executing == BusyCount(s.cores) + if s.main == Active then 1 else 0
  }

  ghost predicate CoresOk(s: State) {
    && |s.cores| > 0 && s.cores[0] == Core(NULL, s.cores[0].arg, false, Off)
    && forall c: nat {:trigger CoreOk(s, c)} :: 1 <= c < |s.cores| ==> CoreOk(s, c)
  }

  ghost predicate Inv(s: State) {
    && CoresOk(s)
    && DispatchOk(s)
    && Counts(s)
    && (s.usable == 1 || s.usable == |s.cores|)
    && (s.dispatch != NoDispatch ==> IsActive(s, s.dispatcher))
    && (IsInit(s.dispatch) ==> s.dispatcher == MAIN && s.usable == |s.cores|)
    && (s.main == Exited ==> s.executing == 0)
  }

  /** Changing one core, and nothing the other cores' conditions mention. */
  lemma OneCoreChanged(s: State, s': State, c: nat)
    requires CoresOk(s) && 1 <= c < |s.cores| == |s'.cores|
    requires s'.cores == s.cores[c := s'.cores[c]]
    requires s'.dispatch == s.dispatch && s'.usable == s.usable
    requires CoreOk(s', c)
    ensures CoresOk(s')
  {
    forall c': nat | 1 <= c' < |s'.cores| ensures CoreOk(s', c') {
      assert CoreOk(s, c');
    }
  }

  /** While a dispatch is under way the count cannot be zero: the dispatching thread is in it. */
  lemma DispatchIsCounted(s: State)
    requires Inv(s) && s.dispatch != NoDispatch
    ensures s.executing > 0
  {
    if s.dispatcher != MAIN { BusyIsCounted(s.cores, s.dispatcher); }
  }

  lemma CoreStepOk(s: State, c: nat)
    requires Inv(s) && Enabled(s, CoreStep(c))
    ensures CoresOk(Next(s, CoreStep(c))) && DispatchOk(Next(s, CoreStep(c)))
  {
    assert CoreOk(s, c);
    OneCoreChanged(s, Next(s, CoreStep(c)), c);
  }

  lemma CoreStepInv(s: State, c: nat)
    requires Inv(s) && Enabled(s, CoreStep(c))
    ensures Inv(Next(s, CoreStep(c)))
  {
    CoreStepOk(s, c);
    BusyCountUpdate(s.cores, c, CoreNext(s.cores[c]));
    assert CoreOk(s, c);
    if s.cores[c].pc.GotArg? { DispatchIsCounted(s); }
    if s.cores[c].pc.Signalled? { BusyIsCounted(s.cores, c); }
  }

  lemma TaskReturnInv(s: State, c: nat)
    requires Inv(s) && Enabled(s, TaskReturn(c))
    ensures Inv(Next(s, TaskReturn(c)))
  {
    var s' := Next(s, TaskReturn(c));
    assert CoreOk(s, c);
    BusyCountUpdate(s.cores, c, s'.cores[c]);
    OneCoreChanged(s, s', c);
  }

  lemma DispatchCores(s: State)
    requires Inv(s) && s.dispatch != NoDispatch
    ensures CoresOk(DispatchNext(s))
  {
    var s' := DispatchNext(s);
    forall c: nat | 1 <= c < |s'.cores| ensures CoreOk(s', c) {
      assert CoreOk(s, c);
    }
  }

  lemma DispatchStepInv(s: State)
    requires Inv(s) && s.dispatch != NoDispatch
    ensures Inv(DispatchNext(s))
  {
    var s' := DispatchNext(s);
    DispatchCores(s);
    if s'.cores != s.cores {
      var i := s.dispatch.i;
      assert CoreOk(s, i);
      BusyCountUpdate(s.cores, i, s'.cores[i]);
    }
    if s'.dispatch.WriteArg? {
      var i := s'.dispatch.i;
      assert CoreOk(s, i);
    }
  }

  lemma StepInv(s: State, a: Action)
    requires Inv(s) && Enabled(s, a)
    ensures Inv(Next(s, a))
  {
    var s' := Next(s, a);
    match a
    case CoreStep(c) => CoreStepInv(s, c);
    case TaskReturn(c) => TaskReturnInv(s, c);
    case DispatchStep => DispatchStepInv(s);
    case _ =>
      forall c: nat | 1 <= c < |s'.cores| ensures CoreOk(s', c) {
        assert CoreOk(s, c);
      }
  }
}
