/**
CustomMutexImpl and CustomConditionVariableImpl
(guest-verona-rt/monza-libcxx/src/threading.cc) over the per-core semaphores of
sleep_thread and wake_thread (guest-verona-rt/crt/thread.cc), as atomic steps of
any number of threads on any number of mutexes and condition variables.

Each thread's semaphore is the counting semaphore whose blocking behaviour
module Semaphore establishes.
*/
module Blocking {
  import opened Sequences

  /** The wait list, and with it the spin lock, of a mutex or a condition variable. */
  datatype Queue = MutexQ(m: nat) | CondQ(c: nat)

  /** Where unlock returns to: its caller, or the middle of a condition variable's wait. */
  datatype Cont = Return | ThenSleep

  /** Steps are named after what they do next; those between Spin and Unspin hold the spin lock. */
  datatype LockStep = LSpin | LTry | LGot | LEnqueue | LUnspin | LSleep
  datatype UnlockStep = USpin | UStore | UDequeue | UUnspin(entry: seq<nat>) | UWake(entry: seq<nat>)
  datatype WaitStep = WSpin | WEnqueue | WUnspin
  datatype SignalStep = SSpin | SDequeue | SUnspin(entry: seq<nat>) | SWake(entry: seq<nat>)
  datatype BroadcastStep = BSpin | BDrain(local: seq<nat>) | BUnspin(local: seq<nat>) | BWake(local: seq<nat>)

  /**
  A thread's position.  Waiting on a condition variable is CondWait, then unlocking with the
  continuation ThenSleep, then CondSleep, then locking.  An entry that unlock or signal has taken
  off a list is a sequence of at most one thread.
  */
  datatype Position =
    | Idle
    | Locking(m: nat, lock: LockStep)
    | Unlocking(m: nat, k: Cont, unlock: UnlockStep)
    | CondWait(c: nat, m: nat, wait: WaitStep)
    | CondSleep(m: nat)
    | Signalling(c: nat, signal: SignalStep)
    | Broadcasting(c: nat, broadcast: BroadcastStep)

  datatype Thread = Thread(pc: Position, holds: set<nat>)

  /** Objects that were never written are zero-initialised: unlocked, empty, idle. */
  datatype State = State(
    spin: map<Queue, bool>,
    queue: map<Queue, seq<nat>>,
    taken: map<nat, bool>,
    sem: map<nat, nat>,
    threads: map<nat, Thread>)

  function Spin(s: State, q: Queue): bool { q in s.spin && s.spin[q] }
  function Waiters(s: State, q: Queue): seq<nat> { if q in s.queue then s.queue[q] else [] }
  function Taken(s: State, m: nat): bool { m in s.taken && s.taken[m] }
  function Sem(s: State, t: nat): nat { if t in s.sem then s.sem[t] else 0 }
  function At(s: State, t: nat): Position { if t in s.threads then s.threads[t].pc else Idle }
  function Holds(s: State, t: nat): set<nat> { if t in s.threads then s.threads[t].holds else {} }

  /** What an idle thread calls next. */
  datatype Call =
    | Lock(m: nat) | TryLock(m: nat) | Unlock(m: nat)
    | Wait(c: nat, m: nat) | Signal(c: nat) | Broadcast(c: nat)

  /** Only a holder may unlock a mutex or wait with it; spinning and sleeping threads may be blocked. */
  predicate Enabled(s: State, t: nat, call: Call) {
    match At(s, t)
    case Idle => (call.Unlock? || call.Wait?) ==> call.m in Holds(s, t)
    case Locking(m, step) => (step == LSpin ==> !Spin(s, MutexQ(m))) && (step == LSleep ==> Sem(s, t) > 0)
    case Unlocking(m, _, step) => step == USpin ==> !Spin(s, MutexQ(m))
    case CondWait(c, _, step) => step == WSpin ==> !Spin(s, CondQ(c))
    case CondSleep(_) => Sem(s, t) > 0
    case Signalling(c, step) => step == SSpin ==> !Spin(s, CondQ(c))
    case Broadcasting(c, step) => step == BSpin ==> !Spin(s, CondQ(c))
  }

  function Go(s: State, t: nat, pc: Position): State {
    s.(threads := s.threads[t := Thread(pc, Holds(s, t))])
  }

  function Hold(s: State, t: nat, m: nat, pc: Position): State {
    s.(taken := s.taken[m := true], threads := s.threads[t := Thread(pc, Holds(s, t) + {m})])
  }

  function SetSpin(s: State, q: Queue, on: bool): State {
    s.(spin := s.spin[q := on])
  }

  function SetWaiters(s: State, q: Queue, waiters: seq<nat>): State {
    s.(queue := s.queue[q := waiters])
  }

  /** wake_thread for the entry, if there is one. */
  function Wake(s: State, entry: seq<nat>): State {
    if entry == [] then s else s.(sem := s.sem[entry[0] := Sem(s, entry[0]) + 1])
  }

  function First(waiters: seq<nat>): seq<nat> { if waiters == [] then [] else [waiters[0]] }
  function Rest(waiters: seq<nat>): seq<nat> { if waiters == [] then [] else waiters[1..] }

  function Next(s: State, t: nat, call: Call): State
    requires Enabled(s, t, call)
  {
    match At(s, t)
    case Idle => NextCall(s, t, call)
    case Locking(m, step) => NextLock(s, t, m, step)
    case Unlocking(m, k, step) => NextUnlock(s, t, m, k, step)
    case CondWait(c, m, step) => NextWait(s, t, c, m, step)
    case CondSleep(m) => Go(s.(sem := s.sem[t := Sem(s, t) - 1]), t, Locking(m, LSpin))
    case Signalling(c, step) => NextSignal(s, t, c, step)
    case Broadcasting(c, step) => NextBroadcast(s, t, c, step)
  }

  /** Entering an operation; trylock is a single exchange that ignores the spin lock. */
  function NextCall(s: State, t: nat, call: Call): State {
    match call
    case Lock(m) => Go(s, t, Locking(m, LSpin))
    case TryLock(m) => if Taken(s, m) then s else Hold(s, t, m, Idle)
    case Unlock(m) => Go(s, t, Unlocking(m, Return, USpin))
    case Wait(c, m) => Go(s, t, CondWait(c, m, WSpin))
    case Signal(c) => Go(s, t, Signalling(c, SSpin))
    case Broadcast(c) => Go(s, t, Broadcasting(c, BSpin))
  }

  function NextLock(s: State, t: nat, m: nat, step: LockStep): State
    requires step == LSleep ==> Sem(s, t) > 0
  {
    match step
    case LSpin => Go(SetSpin(s, MutexQ(m), true), t, Locking(m, LTry))
    case LTry => if Taken(s, m) then Go(s, t, Locking(m, LEnqueue)) else Hold(s, t, m, Locking(m, LGot))
    case LGot => Go(SetSpin(s, MutexQ(m), false), t, Idle)
    case LEnqueue => Go(SetWaiters(s, MutexQ(m), Waiters(s, MutexQ(m)) + [t]), t, Locking(m, LUnspin))
    case LUnspin => Go(SetSpin(s, MutexQ(m), false), t, Locking(m, LSleep))
    case LSleep => Go(s.(sem := s.sem[t := Sem(s, t) - 1]), t, Locking(m, LSpin))
  }

  function NextUnlock(s: State, t: nat, m: nat, k: Cont, step: UnlockStep): State {
    match step
    case USpin => Go(SetSpin(s, MutexQ(m), true), t, Unlocking(m, k, UStore))
    case UStore =>
      s.(taken := s.taken[m := false], threads := s.threads[t := Thread(Unlocking(m, k, UDequeue), Holds(s, t) - {m})])
    case UDequeue =>
      var w := Waiters(s, MutexQ(m));
      Go(SetWaiters(s, MutexQ(m), Rest(w)), t, Unlocking(m, k, UUnspin(First(w))))
    case UUnspin(entry) => Go(SetSpin(s, MutexQ(m), false), t, Unlocking(m, k, UWake(entry)))
    case UWake(entry) => Go(Wake(s, entry), t, if k == Return then Idle else CondSleep(m))
  }

  function NextWait(s: State, t: nat, c: nat, m: nat, step: WaitStep): State {
    match step
    case WSpin => Go(SetSpin(s, CondQ(c), true), t, CondWait(c, m, WEnqueue))
    case WEnqueue => Go(SetWaiters(s, CondQ(c), Waiters(s, CondQ(c)) + [t]), t, CondWait(c, m, WUnspin))
    case WUnspin => Go(SetSpin(s, CondQ(c), false), t, Unlocking(m, ThenSleep, USpin))
  }

  function NextSignal(s: State, t: nat, c: nat, step: SignalStep): State {
    match step
    case SSpin => Go(SetSpin(s, CondQ(c), true), t, Signalling(c, SDequeue))
    case SDequeue =>
      var w := Waiters(s, CondQ(c));
      Go(SetWaiters(s, CondQ(c), Rest(w)), t, Signalling(c, SUnspin(First(w))))
    case SUnspin(entry) => Go(SetSpin(s, CondQ(c), false), t, Signalling(c, SWake(entry)))
    case SWake(entry) => Go(Wake(s, entry), t, Idle)
  }

  function NextBroadcast(s: State, t: nat, c: nat, step: BroadcastStep): State {
    match step
    case BSpin => Go(SetSpin(s, CondQ(c), true), t, Broadcasting(c, BDrain([])))
    case BDrain(local) =>
      var w := Waiters(s, CondQ(c));
      if w == [] then Go(s, t, Broadcasting(c, BUnspin(local)))
      else Go(SetWaiters(s, CondQ(c), Rest(w)), t, Broadcasting(c, BDrain(local + First(w))))
    case BUnspin(local) => Go(SetSpin(s, CondQ(c), false), t, Broadcasting(c, BWake(local)))
    case BWake(local) =>
      if local == [] then Go(s, t, Idle) else Go(Wake(s, local), t, Broadcasting(c, BWake(local[1..])))
  }

  // --- Events and the token of each thread --------------------------------------

  /** What a step does to the wait token of a thread. */
  datatype Event =
    | Quiet
    | Enqueued(who: nat, q: Queue)
    | Dequeued(who: nat, q: Queue, waker: nat)
    | Sent(who: nat, waker: nat)
    | Slept(who: nat)

  function EventOf(s: State, t: nat): Event {
    match At(s, t)
    case Idle => Quiet
    case Locking(m, step) =>
      if step == LEnqueue then Enqueued(t, MutexQ(m)) else if step == LSleep then Slept(t) else Quiet
    case Unlocking(m, _, step) =>
      if step == UDequeue then DequeueEvent(s, MutexQ(m), t) else if step.UWake? then SendEvent(step.entry, t)
        else Quiet
    case CondWait(c, _, step) => if step == WEnqueue then Enqueued(t, CondQ(c)) else Quiet
    case CondSleep(_) => Slept(t)
    case Signalling(c, step) =>
      if step == SDequeue then DequeueEvent(s, CondQ(c), t) else if step.SWake? then SendEvent(step.entry, t) else Quiet
    case Broadcasting(c, step) =>
      if step.BDrain? then DequeueEvent(s, CondQ(c), t) else if step.BWake? then SendEvent(step.local, t) else Quiet
  }

  function DequeueEvent(s: State, q: Queue, t: nat): Event {
    if Waiters(s, q) == [] then Quiet else Dequeued(Waiters(s, q)[0], q, t)
  }

  function SendEvent(entry: seq<nat>, t: nat): Event {
    if entry == [] then Quiet else Sent(entry[0], t)
  }

  /** Where a thread's wait token is: nowhere, on a wait list, in a waker's hands, or in its semaphore. */
  datatype Token = Nowhere | Listed(q: Queue) | InHand(waker: nat) | InSem

  function TokenOf(w: map<nat, Token>, t: nat): Token { if t in w then w[t] else Nowhere }

  /** The effect of an event on the tokens. */
  function Move(w: map<nat, Token>, e: Event): map<nat, Token> {
    match e
    case Quiet => w
    case Enqueued(who, q) => w[who := Listed(q)]
    case Dequeued(who, _, waker) => w[who := InHand(waker)]
    case Sent(who, _) => w[who := InSem]
    case Slept(who) => w[who := Nowhere]
  }

  /** Entries a thread has taken off a list and not yet woken. */
  function Hand(pc: Position): seq<nat> {
    match pc
    case Unlocking(_, _, step) => if step.UUnspin? || step.UWake? then step.entry else []
    case Signalling(_, step) => if step.SUnspin? || step.SWake? then step.entry else []
    case Broadcasting(_, step) => if step == BSpin then [] else step.local
    case _ => []
  }

  /** Between having enqueued itself and the end of its sleep. */
  predicate Waiting(pc: Position) {
    match pc
    case Locking(_, step) => step == LUnspin || step == LSleep
    case Unlocking(_, k, _) => k == ThenSleep
    case CondWait(_, _, step) => step == WUnspin
    case CondSleep(_) => true
    case _ => false
  }

  /** Enqueued on a mutex's list, as opposed to a condition variable's. */
  predicate WaitingForMutex(pc: Position, m: nat) {
    pc == Locking(m, LUnspin) || pc == Locking(m, LSleep)
  }

  predicate KeepsMutexWait(pc: Position, pc': Position) {
    pc.Locking? && (pc.lock == LUnspin || pc.lock == LSleep) ==> WaitingForMutex(pc', pc.m)
  }

  ghost predicate QueueTokens(s: State, w: map<nat, Token>, q: Queue) {
    && NoDuplicates(Waiters(s, q))
    && (forall t: nat :: t in Waiters(s, q) <==> TokenOf(w, t) == Listed(q))
  }

  ghost predicate HandTokens(s: State, w: map<nat, Token>, x: nat) {
    && NoDuplicates(Hand(At(s, x)))
    && (forall t: nat :: t in Hand(At(s, x)) <==> TokenOf(w, t) == InHand(x))
  }

  ghost predicate ThreadToken(s: State, w: map<nat, Token>, t: nat) {
    && Sem(s, t) == (if TokenOf(w, t) == InSem then 1 else 0)
    && (TokenOf(w, t) == Nowhere <==> !Waiting(At(s, t)))
    && (forall m :: TokenOf(w, t) == Listed(MutexQ(m)) ==> WaitingForMutex(At(s, t), m))
  }

  /** Every waiting thread has exactly one token, and the lists, hands and semaphores hold just these. */
  ghost predicate TokenInv(s: State, w: map<nat, Token>) {
    && (forall q {:trigger QueueTokens(s, w, q)} :: QueueTokens(s, w, q))
    && (forall x: nat {:trigger HandTokens(s, w, x)} :: HandTokens(s, w, x))
    && (forall t: nat {:trigger ThreadToken(s, w, t)} :: ThreadToken(s, w, t))
  }

  /** An entry taken off a list by unlock or signal is at most one thread. */
  predicate EntryOk(pc: Position) {
    !pc.Broadcasting? ==> |Hand(pc)| <= 1
  }

  ghost predicate SameLists(s: State, s': State) {
    forall q {:trigger Waiters(s', q)} :: Waiters(s', q) == Waiters(s, q)
  }

  ghost predicate SameSems(s: State, s': State) {
    forall x: nat {:trigger Sem(s', x)} :: Sem(s', x) == Sem(s, x)
  }

  /** What a step of t with event e changes, as far as tokens are concerned. */
  ghost predicate Effect(s: State, s': State, t: nat, e: Event) {
    && (forall x: nat {:trigger At(s', x)} {:trigger Holds(s', x)} ::
          x != t ==> At(s', x) == At(s, x) && Holds(s', x) == Holds(s, x))
    && (e == Slept(t) || KeepsMutexWait(At(s, t), At(s', t)))
    && match e
       case Quiet =>
         && SameLists(s, s') && SameSems(s, s')
         && Hand(At(s', t)) == Hand(At(s, t)) && Waiting(At(s', t)) == Waiting(At(s, t))
       case Enqueued(who, q) =>
         && who == t && SameSems(s, s')
         && Waiters(s', q) == Waiters(s, q) + [t]
         && (forall p {:trigger Waiters(s', p)} :: p != q ==> Waiters(s', p) == Waiters(s, p))
         && Hand(At(s', t)) == Hand(At(s, t)) == [] && !Waiting(At(s, t)) && Waiting(At(s', t))
         && (q.MutexQ? ==> WaitingForMutex(At(s', t), q.m))
       case Dequeued(who, q, x) =>
         && x == t && SameSems(s, s')
         && Waiters(s, q) != [] && who == Waiters(s, q)[0] && Waiters(s', q) == Waiters(s, q)[1..]
         && (forall p {:trigger Waiters(s', p)} :: p != q ==> Waiters(s', p) == Waiters(s, p))
         && Hand(At(s', t)) == Hand(At(s, t)) + [who] && Waiting(At(s', t)) == Waiting(At(s, t))
       case Sent(who, x) =>
         && x == t && SameLists(s, s')
         && Hand(At(s, t)) != [] && who == Hand(At(s, t))[0] && Hand(At(s', t)) == Hand(At(s, t))[1..]
         && (forall y: nat {:trigger Sem(s', y)} :: Sem(s', y) == if y == who then Sem(s, y) + 1 else Sem(s, y))
         && Waiting(At(s', t)) == Waiting(At(s, t))
       case Slept(who) =>
         && who == t && SameLists(s, s')
         && Sem(s, t) > 0
         && (forall y: nat {:trigger Sem(s', y)} :: Sem(s', y) == if y == t then Sem(s, y) - 1 else Sem(s, y))
         && Hand(At(s', t)) == Hand(At(s, t)) == [] && Waiting(At(s, t)) && !Waiting(At(s', t))
  }

  ghost predicate Moves(s: State, s': State, t: nat, pc: Position) {
    t in s'.threads && s'.threads == s.threads[t := s'.threads[t]] && s'.threads[t].pc == pc
  }

  lemma QuietEffect(s: State, s': State, t: nat, pc: Position)
    requires Moves(s, s', t, pc) && s'.queue == s.queue && s'.sem == s.sem
    requires Hand(pc) == Hand(At(s, t)) && Waiting(pc) == Waiting(At(s, t)) && KeepsMutexWait(At(s, t), pc)
    ensures Effect(s, s', t, Quiet)
  {
  }

  lemma EnqueueEffect(s: State, s': State, t: nat, pc: Position, q: Queue)
    requires Moves(s, s', t, pc) && s'.queue == s.queue[q := Waiters(s, q) + [t]] && s'.sem == s.sem
    requires Hand(pc) == Hand(At(s, t)) == [] && Waiting(pc) && !Waiting(At(s, t))
    requires q.MutexQ? ==> WaitingForMutex(pc, q.m)
    ensures Effect(s, s', t, Enqueued(t, q))
  {
  }

  lemma DequeueEffect(s: State, s': State, t: nat, pc: Position, q: Queue)
    requires Moves(s, s', t, pc) && s'.queue == s.queue[q := Rest(Waiters(s, q))] && s'.sem == s.sem
    requires Hand(pc) == Hand(At(s, t)) + First(Waiters(s, q)) && Waiting(pc) == Waiting(At(s, t))
    requires KeepsMutexWait(At(s, t), pc)
    ensures Effect(s, s', t, DequeueEvent(s, q, t))
  {
  }

  lemma SendEffect(s: State, s': State, t: nat, pc: Position)
    requires Moves(s, s', t, pc) && s'.queue == s.queue && s'.sem == Wake(s, Hand(At(s, t))).sem
    requires Hand(pc) == Rest(Hand(At(s, t))) && Waiting(pc) == Waiting(At(s, t))
    requires KeepsMutexWait(At(s, t), pc)
    ensures Effect(s, s', t, SendEvent(Hand(At(s, t)), t))
  {
  }

  lemma SleptEffect(s: State, s': State, t: nat, pc: Position)
    requires Sem(s, t) > 0
    requires Moves(s, s', t, pc) && s'.queue == s.queue && s'.sem == s.sem[t := Sem(s, t) - 1]
    requires Hand(pc) == Hand(At(s, t)) == [] && Waiting(At(s, t)) && !Waiting(pc)
    ensures Effect(s, s', t, Slept(t))
  {
  }

  /** Every step of every operation has the effect of its event. */
  lemma StepEffect(s: State, t: nat, call: Call)
    requires Enabled(s, t, call) && EntryOk(At(s, t))
    ensures Effect(s, Next(s, t, call), t, EventOf(s, t)) && EntryOk(At(Next(s, t, call), t))
  {
    match At(s, t)
    case Idle => CallEffect(s, t, call);
    case Locking(m, step) => LockEffect(s, t, m, step, EventOf(s, t));
    case Unlocking(m, k, step) => UnlockEffect(s, t, m, k, step, EventOf(s, t));
    case CondWait(c, m, step) => WaitEffect(s, t, c, m, step, EventOf(s, t));
    case CondSleep(m) => SleptEffect(s, Next(s, t, call), t, Locking(m, LSpin));
    case Signalling(c, step) => SignalEffect(s, t, c, step, EventOf(s, t));
    case Broadcasting(c, step) => BroadcastEffect(s, t, c, step, EventOf(s, t));
  }

  lemma CallEffect(s: State, t: nat, call: Call)
    requires At(s, t).Idle? && Enabled(s, t, call)
    ensures Effect(s, Next(s, t, call), t, EventOf(s, t)) && EntryOk(At(Next(s, t, call), t))
  {
    var s' := Next(s, t, call);
    if call.TryLock? && Taken(s, call.m) {
    } else {
      QuietEffect(s, s', t, At(s', t));
    }
  }

  lemma LockEffect(s: State, t: nat, m: nat, step: LockStep, e: Event)
    requires At(s, t) == Locking(m, step) && (step == LSleep ==> Sem(s, t) > 0) && e == EventOf(s, t)
    ensures Effect(s, NextLock(s, t, m, step), t, e) && EntryOk(At(NextLock(s, t, m, step), t))
  {
    var s' := NextLock(s, t, m, step);
    match step
    case LEnqueue => EnqueueEffect(s, s', t, Locking(m, LUnspin), MutexQ(m));
    case LSleep => SleptEffect(s, s', t, Locking(m, LSpin));
    case _ => QuietEffect(s, s', t, At(s', t));
  }

  lemma UnlockEffect(s: State, t: nat, m: nat, k: Cont, step: UnlockStep, e: Event)
    requires At(s, t) == Unlocking(m, k, step) && EntryOk(At(s, t)) && e == EventOf(s, t)
    ensures Effect(s, NextUnlock(s, t, m, k, step), t, e) && EntryOk(At(NextUnlock(s, t, m, k, step), t))
  {
    var s' := NextUnlock(s, t, m, k, step);
    match step
    case UDequeue => DequeueEffect(s, s', t, At(s', t), MutexQ(m));
    case UWake(_) => SendEffect(s, s', t, At(s', t));
    case _ => QuietEffect(s, s', t, At(s', t));
  }

  lemma WaitEffect(s: State, t: nat, c: nat, m: nat, step: WaitStep, e: Event)
    requires At(s, t) == CondWait(c, m, step) && e == EventOf(s, t)
    ensures Effect(s, NextWait(s, t, c, m, step), t, e) && EntryOk(At(NextWait(s, t, c, m, step), t))
  {
    var s' := NextWait(s, t, c, m, step);
    match step
    case WEnqueue => EnqueueEffect(s, s', t, At(s', t), CondQ(c));
    case _ => QuietEffect(s, s', t, At(s', t));
  }

  lemma SignalEffect(s: State, t: nat, c: nat, step: SignalStep, e: Event)
    requires At(s, t) == Signalling(c, step) && EntryOk(At(s, t)) && e == EventOf(s, t)
    ensures Effect(s, NextSignal(s, t, c, step), t, e) && EntryOk(At(NextSignal(s, t, c, step), t))
  {
    var s' := NextSignal(s, t, c, step);
    match step
    case SDequeue => DequeueEffect(s, s', t, At(s', t), CondQ(c));
    case SWake(_) => SendEffect(s, s', t, At(s', t));
    case _ => QuietEffect(s, s', t, At(s', t));
  }

  lemma BroadcastEffect(s: State, t: nat, c: nat, step: BroadcastStep, e: Event)
    requires At(s, t) == Broadcasting(c, step) && e == EventOf(s, t)
    ensures Effect(s, NextBroadcast(s, t, c, step), t, e) && EntryOk(At(NextBroadcast(s, t, c, step), t))
  {
    var s' := NextBroadcast(s, t, c, step);
    match step
    case BDrain(_) =>
      if Waiters(s, CondQ(c)) == [] {
        QuietEffect(s, s', t, At(s', t));
      } else {
        DequeueEffect(s, s', t, At(s', t), CondQ(c));
      }
    case BWake(_) => SendEffect(s, s', t, At(s', t));
    case _ => QuietEffect(s, s', t, At(s', t));
  }

  lemma TokenStep(s: State, w: map<nat, Token>, s': State, t: nat, e: Event)
    requires TokenInv(s, w) && Effect(s, s', t, e)
    ensures TokenInv(s', Move(w, e))
  {
    var w' := Move(w, e);
    forall q
      ensures QueueTokens(s', w', q)
    {
      QueueStep(s, w, s', t, e, q);
    }
    forall x: nat
      ensures HandTokens(s', w', x)
    {
      HandStep(s, w, s', t, e, x);
    }
    forall x: nat
      ensures ThreadToken(s', w', x)
    {
      ThreadStep(s, w, s', t, e, x);
    }
  }

  lemma QueueStep(s: State, w: map<nat, Token>, s': State, t: nat, e: Event, q: Queue)
    requires TokenInv(s, w) && Effect(s, s', t, e)
    ensures QueueTokens(s', Move(w, e), q)
  {
    assert QueueTokens(s, w, q);
    match e
    case Quiet =>
    case Enqueued(who, p) => assert ThreadToken(s, w, t);
    case Dequeued(who, p, _) =>
      assert QueueTokens(s, w, p);
      TailIs(Waiters(s, p));
      assert Waiters(s, p)[0] in Waiters(s, p);
    case Sent(who, _) =>
      assert HandTokens(s, w, t);
      TailIs(Hand(At(s, t)));
      assert who in Hand(At(s, t));
    case Slept(who) => assert ThreadToken(s, w, t);
  }

  lemma HandStep(s: State, w: map<nat, Token>, s': State, t: nat, e: Event, x: nat)
    requires TokenInv(s, w) && Effect(s, s', t, e)
    ensures HandTokens(s', Move(w, e), x)
  {
    assert HandTokens(s, w, x);
    match e
    case Quiet =>
    case Enqueued(who, p) => assert ThreadToken(s, w, t);
    case Dequeued(who, p, _) =>
      assert QueueTokens(s, w, p);
      TailIs(Waiters(s, p));
      assert Waiters(s, p)[0] in Waiters(s, p);
    case Sent(who, _) =>
      assert HandTokens(s, w, t);
      TailIs(Hand(At(s, t)));
      assert who in Hand(At(s, t));
    case Slept(who) => assert ThreadToken(s, w, t);
  }

  lemma ThreadStep(s: State, w: map<nat, Token>, s': State, t: nat, e: Event, x: nat)
    requires TokenInv(s, w) && Effect(s, s', t, e)
    ensures ThreadToken(s', Move(w, e), x)
  {
    assert ThreadToken(s, w, x);
    match e
    case Quiet =>
    case Enqueued(who, p) => assert ThreadToken(s, w, t);
    case Dequeued(who, p, _) =>
      assert QueueTokens(s, w, p);
      TailIs(Waiters(s, p));
      assert Waiters(s, p)[0] in Waiters(s, p);
    case Sent(who, _) =>
      assert HandTokens(s, w, t);
      TailIs(Hand(At(s, t)));
      assert who in Hand(At(s, t));
    case Slept(who) => assert ThreadToken(s, w, t);
  }

  // --- Spin locks ------------------------------------------------------------------

  /** Between taking and releasing the spin lock of q. */
  predicate Inside(pc: Position, q: Queue) {
    match pc
    case Locking(m, step) => q == MutexQ(m) && step != LSpin && step != LSleep
    case Unlocking(m, _, step) => q == MutexQ(m) && (step == UStore || step == UDequeue || step.UUnspin?)
    case CondWait(c, _, step) => q == CondQ(c) && step != WSpin
    case Signalling(c, step) => q == CondQ(c) && (step == SDequeue || step.SUnspin?)
    case Broadcasting(c, step) => q == CondQ(c) && (step.BDrain? || step.BUnspin?)
    case _ => false
  }

  /** A spin lock that somebody is inside of is taken, and nobody else is inside. */
  ghost predicate SpinInv(s: State) {
    && (forall t: nat, q {:trigger Inside(At(s, t), q)} :: Inside(At(s, t), q) ==> Spin(s, q))
    && (forall t: nat, u: nat, q {:trigger Inside(At(s, t), q), Inside(At(s, u), q)} ::
          Inside(At(s, t), q) && Inside(At(s, u), q) ==> t == u)
  }

  /** A step takes a free spin lock, releases one it holds, or leaves this one alone. */
  ghost predicate SpinChange(s: State, s': State, t: nat, q: Queue) {
    || (Spin(s', q) == Spin(s, q) && Inside(At(s', t), q) == Inside(At(s, t), q))
    || (!Spin(s, q) && Spin(s', q) && Inside(At(s', t), q))
    || (Inside(At(s, t), q) && !Spin(s', q) && !Inside(At(s', t), q))
  }

  lemma SpinChanges(s: State, t: nat, call: Call, q: Queue)
    requires Enabled(s, t, call)
    ensures SpinChange(s, Next(s, t, call), t, q)
  {
    match At(s, t)
    case Idle =>
    case Locking(m, step) => LockSpins(s, t, m, step, q);
    case Unlocking(m, k, step) => UnlockSpins(s, t, m, k, step, q);
    case CondWait(c, m, step) => WaitSpins(s, t, c, m, step, q);
    case CondSleep(m) =>
    case Signalling(c, step) => SignalSpins(s, t, c, step, q);
    case Broadcasting(c, step) => BroadcastSpins(s, t, c, step, q);
  }

  lemma LockSpins(s: State, t: nat, m: nat, step: LockStep, q: Queue)
    requires At(s, t) == Locking(m, step)
    requires (step == LSpin ==> !Spin(s, MutexQ(m))) && (step == LSleep ==> Sem(s, t) > 0)
    ensures SpinChange(s, NextLock(s, t, m, step), t, q)
  {
  }

  lemma UnlockSpins(s: State, t: nat, m: nat, k: Cont, step: UnlockStep, q: Queue)
    requires At(s, t) == Unlocking(m, k, step) && (step == USpin ==> !Spin(s, MutexQ(m)))
    ensures SpinChange(s, NextUnlock(s, t, m, k, step), t, q)
  {
  }

  lemma WaitSpins(s: State, t: nat, c: nat, m: nat, step: WaitStep, q: Queue)
    requires At(s, t) == CondWait(c, m, step) && (step == WSpin ==> !Spin(s, CondQ(c)))
    ensures SpinChange(s, NextWait(s, t, c, m, step), t, q)
  {
  }

  lemma SignalSpins(s: State, t: nat, c: nat, step: SignalStep, q: Queue)
    requires At(s, t) == Signalling(c, step) && (step == SSpin ==> !Spin(s, CondQ(c)))
    ensures SpinChange(s, NextSignal(s, t, c, step), t, q)
  {
  }

  lemma BroadcastSpins(s: State, t: nat, c: nat, step: BroadcastStep, q: Queue)
    requires At(s, t) == Broadcasting(c, step) && (step == BSpin ==> !Spin(s, CondQ(c)))
    ensures SpinChange(s, NextBroadcast(s, t, c, step), t, q)
  {
  }

  lemma SpinStep(s: State, t: nat, call: Call)
    requires Enabled(s, t, call) && SpinInv(s) && EntryOk(At(s, t))
    ensures SpinInv(Next(s, t, call))
  {
    var s' := Next(s, t, call);
    StepEffect(s, t, call);
    forall x: nat, q | Inside(At(s', x), q)
      ensures Spin(s', q) && forall y: nat :: Inside(At(s', y), q) ==> y == x
    {
      SpinChanges(s, t, call, q);
      assert x != t ==> Inside(At(s, x), q);
      forall y: nat | Inside(At(s', y), q)
        ensures y == x
      {
        assert y != t ==> Inside(At(s, y), q);
      }
    }
  }

  // --- Mutexes ------------------------------------------------------------------------

  /** Positions from which a thread will give up a mutex that it holds. */
  predicate MustHold(pc: Position, m: nat) {
    || (pc.Unlocking? && pc.m == m && (pc.unlock == USpin || pc.unlock == UStore))
    || (pc.CondWait? && pc.m == m)
  }

  /** A taken mutex has exactly one holder, and a thread enqueues itself only on a taken mutex. */
  ghost predicate MutexOk(s: State, m: nat) {
    && (Taken(s, m) ==> exists t: nat :: m in Holds(s, t))
    && (forall t: nat {:trigger Holds(s, t)} :: m in Holds(s, t) ==> Taken(s, m))
    && (forall t: nat, u: nat {:trigger Holds(s, t), Holds(s, u)} :: m in Holds(s, t) && m in Holds(s, u) ==> t == u)
    && (forall t: nat {:trigger At(s, t)} :: MustHold(At(s, t), m) ==> m in Holds(s, t))
    && (forall t: nat {:trigger At(s, t)} :: At(s, t) == Locking(m, LEnqueue) ==> Taken(s, m))
  }

  ghost predicate TakenInv(s: State) {
    forall m: nat {:trigger MutexOk(s, m)} :: MutexOk(s, m)
  }

  /** What a step of t does to mutex m: nothing, take it while free, or free it while held. */
  ghost predicate TakenChange(s: State, s': State, t: nat, m: nat) {
    || (Taken(s', m) == Taken(s, m) && (m in Holds(s', t) <==> m in Holds(s, t))
        && (MustHold(At(s', t), m) ==> m in Holds(s, t))
        && (At(s', t) == Locking(m, LEnqueue) ==> Taken(s, m)))
    || (!Taken(s, m) && Taken(s', m) && m in Holds(s', t)
        && !MustHold(At(s', t), m) && At(s', t) != Locking(m, LEnqueue))
    || (At(s, t).Unlocking? && At(s, t).m == m && At(s, t).unlock == UStore
        && !Taken(s', m) && m !in Holds(s', t)
        && At(s', t) == Unlocking(m, At(s, t).k, UDequeue))
  }

  lemma TakenChanges(s: State, t: nat, call: Call, m: nat)
    requires Enabled(s, t, call) && TakenInv(s)
    ensures TakenChange(s, Next(s, t, call), t, m)
  {
    match At(s, t)
    case Idle => CallTakes(s, t, call, m);
    case Locking(n, step) => LockTakes(s, t, n, step, m);
    case Unlocking(n, k, step) =>
      assert MutexOk(s, n);
      UnlockTakes(s, t, n, k, step, m);
    case CondWait(c, n, step) =>
      assert MutexOk(s, n);
      WaitTakes(s, t, c, n, step, m);
    case CondSleep(n) =>
    case Signalling(c, step) => SignalTakes(s, t, c, step, m);
    case Broadcasting(c, step) => BroadcastTakes(s, t, c, step, m);
  }

  lemma CallTakes(s: State, t: nat, call: Call, m: nat)
    requires At(s, t) == Idle && (call.Unlock? || call.Wait? ==> call.m in Holds(s, t))
    ensures TakenChange(s, NextCall(s, t, call), t, m)
  {
  }

  lemma LockTakes(s: State, t: nat, n: nat, step: LockStep, m: nat)
    requires At(s, t) == Locking(n, step) && (step == LSleep ==> Sem(s, t) > 0)
    ensures TakenChange(s, NextLock(s, t, n, step), t, m)
  {
  }

  lemma UnlockTakes(s: State, t: nat, n: nat, k: Cont, step: UnlockStep, m: nat)
    requires At(s, t) == Unlocking(n, k, step) && (MustHold(At(s, t), n) ==> n in Holds(s, t))
    ensures TakenChange(s, NextUnlock(s, t, n, k, step), t, m)
  {
  }

  lemma WaitTakes(s: State, t: nat, c: nat, n: nat, step: WaitStep, m: nat)
    requires At(s, t) == CondWait(c, n, step) && n in Holds(s, t)
    ensures TakenChange(s, NextWait(s, t, c, n, step), t, m)
  {
  }

  lemma SignalTakes(s: State, t: nat, c: nat, step: SignalStep, m: nat)
    requires At(s, t) == Signalling(c, step)
    ensures TakenChange(s, NextSignal(s, t, c, step), t, m)
  {
  }

  lemma BroadcastTakes(s: State, t: nat, c: nat, step: BroadcastStep, m: nat)
    requires At(s, t) == Broadcasting(c, step)
    ensures TakenChange(s, NextBroadcast(s, t, c, step), t, m)
  {
  }

  lemma TakenStep(s: State, t: nat, call: Call)
    requires Enabled(s, t, call) && TakenInv(s) && SpinInv(s) && EntryOk(At(s, t))
    ensures TakenInv(Next(s, t, call))
  {
    var s' := Next(s, t, call);
    StepEffect(s, t, call);
    forall m: nat
      ensures MutexOk(s', m)
    {
      assert MutexOk(s, m);
      TakenChanges(s, t, call, m);
      MutexStep(s, s', t, m);
    }
  }

  lemma MutexStep(s: State, s': State, t: nat, m: nat)
    requires MutexOk(s, m) && TakenChange(s, s', t, m) && SpinInv(s)
    requires forall x: nat :: x != t ==> Holds(s', x) == Holds(s, x)
    requires forall x: nat :: x != t ==> At(s', x) == At(s, x)
    ensures MutexOk(s', m)
  {
    if At(s, t).Unlocking? && At(s, t).m == m && At(s, t).unlock == UStore {
      assert Inside(At(s, t), MutexQ(m));
      forall x: nat | At(s, x) == Locking(m, LEnqueue)
        ensures false
      {
        assert Inside(At(s, x), MutexQ(m));
      }
    }
  }

  // --- No waiter is stranded -----------------------------------------------------------

  /** t has been woken for mutex m, or came for it anew, and has yet to try for it. */
  ghost predicate Contending(s: State, w: map<nat, Token>, t: nat, m: nat) {
    || At(s, t) == Locking(m, LSpin)
    || At(s, t) == Locking(m, LTry)
    || (WaitingForMutex(At(s, t), m) && (TokenOf(w, t).InHand? || TokenOf(w, t).InSem?))
  }

  /** t has freed m and is about to take a waiter off its list, still under the spin lock. */
  ghost predicate Handing(s: State, t: nat, m: nat) {
    At(s, t).Unlocking? && At(s, t).m == m && At(s, t).unlock == UDequeue
  }

  ghost predicate Relief(s: State, w: map<nat, Token>, t: nat, m: nat) {
    Contending(s, w, t, m) || Handing(s, t, m)
  }

  ghost predicate WakeInv(s: State, w: map<nat, Token>) {
    forall m: nat {:trigger Taken(s, m)} :: !Taken(s, m) && Waiters(s, MutexQ(m)) != [] ==>
      exists t: nat :: Relief(s, w, t, m)
  }

  /** A broadcast releases the spin lock only after emptying the list. */
  ghost predicate DrainInv(s: State) {
    forall t: nat {:trigger At(s, t)} ::
      At(s, t).Broadcasting? && At(s, t).broadcast.BUnspin? ==> Waiters(s, CondQ(At(s, t).c)) == []
  }

  ghost predicate Inv(s: State, w: map<nat, Token>) {
    && TokenInv(s, w)
    && (forall t: nat {:trigger At(s, t)} :: EntryOk(At(s, t)))
    && SpinInv(s)
    && TakenInv(s)
    && WakeInv(s, w)
    && DrainInv(s)
  }

  lemma WakeStep(s: State, w: map<nat, Token>, t: nat, call: Call, m: nat)
    requires Inv(s, w) && Enabled(s, t, call)
    requires !Taken(Next(s, t, call), m) && Waiters(Next(s, t, call), MutexQ(m)) != []
    ensures exists r: nat :: Relief(Next(s, t, call), Move(w, EventOf(s, t)), r, m)
  {
    var s', e := Next(s, t, call), EventOf(s, t);
    var w' := Move(w, e);
    StepEffect(s, t, call);
    assert MutexOk(s, m);
    TakenChanges(s, t, call, m);
    if Taken(s, m) {
      assert Relief(s', w', t, m);
    } else if Waiters(s, MutexQ(m)) == [] {
      assert false;
    } else {
      var r: nat :| Relief(s, w, r, m);
      if r != t {
        OtherStaysRelief(s, w, t, e, s', r, m);
      } else {
        OwnStaysRelief(s, w, t, call, m);
      }
    }
  }

  lemma OtherStaysRelief(s: State, w: map<nat, Token>, t: nat, e: Event, s': State, r: nat, m: nat)
    requires TokenInv(s, w) && Effect(s, s', t, e) && r != t && Relief(s, w, r, m)
    ensures Relief(s', Move(w, e), r, m)
  {
    assert ThreadToken(s, w, r);
    match e
    case Dequeued(who, q, _) =>
      assert QueueTokens(s, w, q);
      assert who in Waiters(s, q);
    case _ =>
  }

  /** A thread that tries for a free mutex takes it; one that hands over leaves a woken waiter behind. */
  lemma OwnStaysRelief(s: State, w: map<nat, Token>, t: nat, call: Call, m: nat)
    requires Inv(s, w) && Enabled(s, t, call) && Relief(s, w, t, m)
    requires !Taken(s, m) && !Taken(Next(s, t, call), m) && Waiters(s, MutexQ(m)) != []
    ensures exists r: nat :: Relief(Next(s, t, call), Move(w, EventOf(s, t)), r, m)
  {
    var s', e := Next(s, t, call), EventOf(s, t);
    var w' := Move(w, e);
    if Handing(s, t, m) {
      var h := Waiters(s, MutexQ(m))[0];
      assert QueueTokens(s, w, MutexQ(m)) && h in Waiters(s, MutexQ(m));
      assert ThreadToken(s, w, h);
      assert h != t;
      assert Relief(s', w', h, m);
    } else {
      assert Relief(s', w', t, m);
    }
  }

  lemma DrainStep(s: State, t: nat, call: Call)
    requires Enabled(s, t, call) && SpinInv(s) && DrainInv(s) && EntryOk(At(s, t))
    ensures DrainInv(Next(s, t, call))
  {
    var s' := Next(s, t, call);
    StepEffect(s, t, call);
    forall x: nat | At(s', x).Broadcasting? && At(s', x).broadcast.BUnspin?
      ensures Waiters(s', CondQ(At(s', x).c)) == []
    {
      if x != t {
        var q := CondQ(At(s, x).c);
        assert Inside(At(s, x), q);
        assert EventOf(s, t) == Enqueued(t, q) ==> Inside(At(s, t), q);
      }
    }
  }

  /** Every step of every thread keeps the invariant. */
  lemma StepInv(s: State, w: map<nat, Token>, t: nat, call: Call)
    requires Inv(s, w) && Enabled(s, t, call)
    ensures Inv(Next(s, t, call), Move(w, EventOf(s, t)))
  {
    var s', e := Next(s, t, call), EventOf(s, t);
    StepEffect(s, t, call);
    TokenStep(s, w, s', t, e);
    SpinStep(s, t, call);
    TakenStep(s, t, call);
    DrainStep(s, t, call);
    forall m: nat | !Taken(s', m) && Waiters(s', MutexQ(m)) != []
      ensures exists r: nat :: Relief(s', Move(w, e), r, m)
    {
      WakeStep(s, w, t, call, m);
    }
  }
}
