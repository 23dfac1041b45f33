/** What the mutexes and condition variables guarantee over whole runs. */
module BlockingRuns {
  import opened Sequences
  import opened Blocking

  /** One scheduling decision: the thread that steps, and what it calls if it is idle. */
  datatype Choice = Choice(t: nat, call: Call)

  const START := State(map[], map[], map[], map[], map[])

  ghost predicate IsRun(states: seq<State>, choices: seq<Choice>) {
    && |states| == |choices| + 1
    && states[0] == START
    && forall i {:trigger choices[i]} :: 0 <= i < |choices| ==>
         && Enabled(states[i], choices[i].t, choices[i].call)
         && states[i + 1] == Next(states[i], choices[i].t, choices[i].call)
  }

  /** The events of the first n steps. */
  ghost function Events(states: seq<State>, choices: seq<Choice>, n: nat): (events: seq<Event>)
    requires IsRun(states, choices) && n <= |choices|
    ensures |events| == n
  {
    if n == 0 then []
    else Events(states, choices, n - 1) + [EventOf(states[n - 1], choices[n - 1].t)]
  }

  ghost function Tokens(events: seq<Event>): map<nat, Token> {
    if events == [] then map[] else Move(Tokens(events[..|events| - 1]), events[|events| - 1])
  }

  lemma StartInv()
    ensures Inv(START, map[])
  {
    assert forall q :: QueueTokens(START, map[], q);
    assert forall x: nat :: HandTokens(START, map[], x);
    assert forall t: nat :: ThreadToken(START, map[], t);
    assert forall m: nat :: MutexOk(START, m);
  }

  lemma {:induction false} RunInv(states: seq<State>, choices: seq<Choice>, n: nat)
    requires IsRun(states, choices) && n <= |choices|
    ensures Inv(states[n], Tokens(Events(states, choices, n)))
  {
    if n == 0 {
      StartInv();
    } else {
      RunInv(states, choices, n - 1);
      var c := choices[n - 1];
      StepInv(states[n - 1], Tokens(Events(states, choices, n - 1)), c.t, c.call);
      assert Events(states, choices, n)[..n - 1] == Events(states, choices, n - 1);
    }
  }

  // --- Mutexes ---------------------------------------------------------------------

  /** In every reachable state a mutex is taken iff some thread holds it, and then only one does. */
  lemma {:induction false} MutualExclusion(states: seq<State>, choices: seq<Choice>, n: nat, m: nat)
    requires IsRun(states, choices) && n <= |choices|
    ensures Taken(states[n], m) <==> exists t: nat :: m in Holds(states[n], t)
    ensures forall t: nat, u: nat :: m in Holds(states[n], t) && m in Holds(states[n], u) ==> t == u
  {
    RunInv(states, choices, n);
    assert MutexOk(states[n], m);
  }

  /**
  Whenever a mutex is free with waiters on its list, some thread is about to try for it, or is the
  unlocking thread that is about to take a waiter off the list; once the spin lock is free again,
  it is the former.
  */
  lemma {:induction false} NeverStranded(states: seq<State>, choices: seq<Choice>, n: nat, m: nat)
    requires IsRun(states, choices) && n <= |choices|
    requires !Taken(states[n], m) && Waiters(states[n], MutexQ(m)) != []
    ensures var w := Tokens(Events(states, choices, n));
            exists t: nat :: Contending(states[n], w, t, m) || (Spin(states[n], MutexQ(m)) && Handing(states[n], t, m))
  {
    RunInv(states, choices, n);
    var w := Tokens(Events(states, choices, n));
    assert !Taken(states[n], m);
    var t: nat :| Relief(states[n], w, t, m);
    assert Handing(states[n], t, m) ==> Inside(At(states[n], t), MutexQ(m));
  }

  // --- Wake tokens -----------------------------------------------------------------

  ghost function Occurrences(s: seq<nat>, t: nat): nat {
    multiset(s)[t]
  }

  ghost function ListEntries(s: State, queues: set<Queue>, t: nat): nat {
    if queues == {} then 0 else
      var q :| q in queues;
      Occurrences(Waiters(s, q), t) + ListEntries(s, queues - {q}, t)
  }

  ghost function HandEntries(s: State, threads: set<nat>, t: nat): nat {
    if threads == {} then 0 else
      var x :| x in threads;
      Occurrences(Hand(At(s, x)), t) + HandEntries(s, threads - {x}, t)
  }

  /** List entries, plus entries taken off a list and not yet woken, plus the semaphore's value. */
  ghost function TokenCount(s: State, t: nat): nat {
    ListEntries(s, s.queue.Keys, t) + HandEntries(s, s.threads.Keys, t) + Sem(s, t)
  }

  lemma Once(s: seq<nat>, t: nat)
    requires NoDuplicates(s)
    ensures Occurrences(s, t) == if t in s then 1 else 0
  {
    if t in s {
      var i :| 0 <= i < |s| && s[i] == t;
      assert s == s[..i] + [t] + s[i + 1..];
      assert t !in s[..i] && t !in s[i + 1..];
    }
  }

  lemma {:induction false} ListedCount(s: State, w: map<nat, Token>, queues: set<Queue>, t: nat)
    requires TokenInv(s, w)
    ensures ListEntries(s, queues, t) == if TokenOf(w, t).Listed? && TokenOf(w, t).q in queues then 1 else 0
    decreases queues
  {
    if queues != {} {
      var q :| && q in queues
               && ListEntries(s, queues, t) == Occurrences(Waiters(s, q), t) + ListEntries(s, queues - {q}, t);
      assert QueueTokens(s, w, q);
      Once(Waiters(s, q), t);
      ListedCount(s, w, queues - {q}, t);
    }
  }

  lemma {:induction false} HeldCount(s: State, w: map<nat, Token>, threads: set<nat>, t: nat)
    requires TokenInv(s, w)
    ensures HandEntries(s, threads, t) == if TokenOf(w, t).InHand? && TokenOf(w, t).waker in threads then 1 else 0
    decreases threads
  {
    if threads != {} {
      var x :| && x in threads
               && HandEntries(s, threads, t) == Occurrences(Hand(At(s, x)), t) + HandEntries(s, threads - {x}, t);
      assert HandTokens(s, w, x);
      Once(Hand(At(s, x)), t);
      HeldCount(s, w, threads - {x}, t);
    }
  }

  /** Wake tokens are conserved: one per thread from its enqueue to the end of its sleep, none otherwise. */
  lemma {:induction false} TokensConserved(states: seq<State>, choices: seq<Choice>, n: nat, t: nat)
    requires IsRun(states, choices) && n <= |choices|
    ensures TokenCount(states[n], t) == if Waiting(At(states[n], t)) then 1 else 0
  {
    RunInv(states, choices, n);
    var s, w := states[n], Tokens(Events(states, choices, n));
    ListedCount(s, w, s.queue.Keys, t);
    HeldCount(s, w, s.threads.Keys, t);
    assert ThreadToken(s, w, t);
    match TokenOf(w, t)
    case Listed(q) => assert QueueTokens(s, w, q);
    case InHand(x) => assert HandTokens(s, w, x);
    case _ =>
  }

  // --- Each wait returns for its own dequeue -----------------------------------------

  predicate Concerns(e: Event, t: nat) {
    e != Quiet && e.who == t
  }

  /** The events that concern t, in order. */
  ghost function About(events: seq<Event>, t: nat): seq<Event> {
    if events == [] then [] else
      var last := events[|events| - 1];
      About(events[..|events| - 1], t) + if Concerns(last, t) then [last] else []
  }

  /** The stage of the cycle enqueue, dequeue, wake-up, end of sleep. */
  function Stage(e: Event): nat {
    match e
    case Quiet => 0
    case Enqueued(_, _) => 0
    case Dequeued(_, _, _) => 1
    case Sent(_, _) => 2
    case Slept(_) => 3
  }

  function TokenStage(token: Token): nat {
    match token
    case Nowhere => 0
    case Listed(_) => 1
    case InHand(_) => 2
    case InSem => 3
  }

  /** Event i is at its stage; an entry is taken off the list it was put on and sent by whoever took it off. */
  ghost predicate InPlace(events: seq<Event>, i: nat)
    requires i < |events|
  {
    && Stage(events[i]) == i % 4 && events[i] != Quiet
    && (i > 0 && events[i].Dequeued? ==> events[i - 1].Enqueued? && events[i - 1].q == events[i].q)
    && (i > 0 && events[i].Sent? ==> events[i - 1].Dequeued? && events[i - 1].waker == events[i].waker)
  }

  /** Going round the cycle. */
  ghost predicate Cyclic(events: seq<Event>) {
    forall i: nat {:trigger InPlace(events, i)} :: i < |events| ==> InPlace(events, i)
  }

  ghost predicate LastMatches(events: seq<Event>, token: Token) {
    match token
    case Nowhere => true
    case Listed(q) => events != [] && events[|events| - 1].Enqueued? && events[|events| - 1].q == q
    case InHand(x) => events != [] && events[|events| - 1].Dequeued? && events[|events| - 1].waker == x
    case InSem => true
  }

  /** The events go round the cycle and the token says how far round they are. */
  ghost predicate OnCycle(mine: seq<Event>, token: Token) {
    Cyclic(mine) && |mine| % 4 == TokenStage(token) && LastMatches(mine, token)
  }

  /** The token of the event's thread is at the stage before the event. */
  ghost predicate FindsToken(w: map<nat, Token>, e: Event) {
    e != Quiet ==>
      && Stage(e) == TokenStage(TokenOf(w, e.who))
      && (e.Dequeued? ==> TokenOf(w, e.who) == Listed(e.q))
      && (e.Sent? ==> TokenOf(w, e.who) == InHand(e.waker))
  }

  lemma EventStage(s: State, w: map<nat, Token>, t: nat, call: Call)
    requires Inv(s, w) && Enabled(s, t, call) && EventOf(s, t) != Quiet
    ensures FindsToken(w, EventOf(s, t))
  {
    var e := EventOf(s, t);
    StepEffect(s, t, call);
    assert ThreadToken(s, w, e.who);
    match e
    case Enqueued(_, _) =>
    case Dequeued(who, q, _) => assert QueueTokens(s, w, q) && who in Waiters(s, q);
    case Sent(who, x) => assert HandTokens(s, w, x) && who in Hand(At(s, x));
    case Slept(_) =>
  }

  /**
  For every thread, the events that concern it go round enqueue, dequeue, wake-up, end of sleep:
  each return from a wait is matched by its own dequeue from the list the thread was on.
  */
  lemma {:induction false} EachSleepHasItsDequeue(states: seq<State>, choices: seq<Choice>, n: nat, t: nat)
    requires IsRun(states, choices) && n <= |choices|
    ensures OnCycle(About(Events(states, choices, n), t), TokenOf(Tokens(Events(states, choices, n)), t))
  {
    if n > 0 {
      EachSleepHasItsDequeue(states, choices, n - 1, t);
      var before := Events(states, choices, n - 1);
      var e := EventOf(states[n - 1], choices[n - 1].t);
      var events := Events(states, choices, n);
      assert events == before + [e] && events[..n - 1] == before;
      NextStage(states, choices, n - 1);
      CycleStep(About(before, t), Tokens(before), e, t);
      assert Tokens(events) == Move(Tokens(before), e);
      assert About(events, t) == About(before, t) + if Concerns(e, t) then [e] else [];
    }
  }

  lemma {:induction false} NextStage(states: seq<State>, choices: seq<Choice>, n: nat)
    requires IsRun(states, choices) && n < |choices|
    ensures FindsToken(Tokens(Events(states, choices, n)), EventOf(states[n], choices[n].t))
  {
    RunInv(states, choices, n);
    if EventOf(states[n], choices[n].t) != Quiet {
      EventStage(states[n], Tokens(Events(states, choices, n)), choices[n].t, choices[n].call);
    }
  }

  lemma CycleStep(mine: seq<Event>, w: map<nat, Token>, e: Event, t: nat)
    requires OnCycle(mine, TokenOf(w, t)) && FindsToken(w, e)
    ensures OnCycle(mine + if Concerns(e, t) then [e] else [], TokenOf(Move(w, e), t))
  {
    if Concerns(e, t) {
      var mine' := mine + [e];
      forall i: nat | i < |mine'| ensures InPlace(mine', i) {
        if i < |mine| { assert InPlace(mine, i); }
      }
    } else {
      assert mine + [] == mine;
    }
  }

  /** From its enqueue until a dequeue names it, a thread is on the list. */
  lemma {:induction false} OnListUntilDequeued(states: seq<State>, choices: seq<Choice>, n: nat, t: nat, q: Queue)
    requires IsRun(states, choices) && n <= |choices|
    ensures var mine := About(Events(states, choices, n), t);
            t in Waiters(states[n], q) <==> mine != [] && mine[|mine| - 1] == Enqueued(t, q)
  {
    LastEventTells(states, choices, n, t, q);
    ListTokens(states, choices, n, t, q);
  }

  lemma {:induction false} LastEventTells(states: seq<State>, choices: seq<Choice>, n: nat, t: nat, q: Queue)
    requires IsRun(states, choices) && n <= |choices|
    ensures var events := Events(states, choices, n);
            var mine := About(events, t);
            TokenOf(Tokens(events), t) == Listed(q) <==> mine != [] && mine[|mine| - 1] == Enqueued(t, q)
  {
    var events := Events(states, choices, n);
    EachSleepHasItsDequeue(states, choices, n, t);
    AboutConcerns(events, t);
    LastEnqueued(About(events, t), TokenOf(Tokens(events), t), t, q);
  }

  lemma {:induction false} ListTokens(states: seq<State>, choices: seq<Choice>, n: nat, t: nat, q: Queue)
    requires IsRun(states, choices) && n <= |choices|
    ensures t in Waiters(states[n], q) <==> TokenOf(Tokens(Events(states, choices, n)), t) == Listed(q)
  {
    RunInv(states, choices, n);
    assert QueueTokens(states[n], Tokens(Events(states, choices, n)), q);
  }

  lemma LastEnqueued(mine: seq<Event>, token: Token, t: nat, q: Queue)
    requires OnCycle(mine, token)
    requires forall e :: e in mine ==> Concerns(e, t)
    ensures token == Listed(q) <==> mine != [] && mine[|mine| - 1] == Enqueued(t, q)
  {
    if mine != [] {
      var last := mine[|mine| - 1];
      assert last in mine;
      assert InPlace(mine, |mine| - 1);
    }
  }

  lemma {:induction false} AboutConcerns(events: seq<Event>, t: nat)
    ensures forall e :: e in About(events, t) ==> Concerns(e, t)
  {
    if events != [] {
      AboutConcerns(events[..|events| - 1], t);
    }
  }

  /**
  A signal is never lost: while any thread waits on c without having been dequeued, a signal takes
  the longest-waiting thread off the list, whether or not that thread is asleep yet.
  */
  lemma {:induction false} SignalTakesAWaiter(states: seq<State>, choices: seq<Choice>, n: nat, t: nat, x: nat, c: nat)
    requires IsRun(states, choices) && n <= |choices|
    requires var mine := About(Events(states, choices, n), t);
             mine != [] && mine[|mine| - 1] == Enqueued(t, CondQ(c))
    requires At(states[n], x) == Signalling(c, SDequeue)
    ensures Waiters(states[n], CondQ(c)) != []
    ensures EventOf(states[n], x) == Dequeued(Waiters(states[n], CondQ(c))[0], CondQ(c), x)
  {
    OnListUntilDequeued(states, choices, n, t, CondQ(c));
  }

  /** When a broadcast lets go of the spin lock, nobody is left on the list. */
  lemma {:induction false} BroadcastTakesAll(states: seq<State>, choices: seq<Choice>, n: nat, x: nat, t: nat)
    requires IsRun(states, choices) && n <= |choices|
    requires At(states[n], x).Broadcasting? && At(states[n], x).broadcast.BUnspin?
    ensures var mine := About(Events(states, choices, n), t);
            mine != [] ==> mine[|mine| - 1] != Enqueued(t, CondQ(At(states[n], x).c))
  {
    RunInv(states, choices, n);
    OnListUntilDequeued(states, choices, n, t, CondQ(At(states[n], x).c));
  }
}
