/**
When guest requests keep their promises: fresh initialisation vectors and replies to the right
request hold over every run in which calls follow one another, and fail for two threads, since
decrypt runs outside the lock on the vector and context that encrypt uses.
*/
module GuestRequestRuns {
  import opened Words
  import opened GuestRequest

  // --- Calls that follow one another -----------------------------------------------

  /** A thread is inside sev_typed_guest_request. */
  predicate InCall(p: Phase) {
    !p.Idle? && !p.Accepted?
  }

  /** The step begins a call while another thread is still in one, be it only decrypting. */
  ghost predicate BeginsEarly(s: State, a: Action) {
    a.Acquire? && exists u: nat {:trigger PhaseOf(s, u)} :: InCall(PhaseOf(s, u))
  }

  ghost predicate EarlyAt(states: seq<State>, actions: seq<Action>, i: nat)
    requires i < |states| && i < |actions|
  {
    BeginsEarly(states[i], actions[i])
  }

  /** In the first n steps no call begins before the previous one has finished decrypting. */
  ghost predicate Serial(states: seq<State>, actions: seq<Action>, n: nat)
    requires n <= |states| && n <= |actions|
  {
    forall i: nat {:trigger EarlyAt(states, actions, i)} :: i < n ==> !EarlyAt(states, actions, i)
  }

  predicate OnlyCall(s: State, t: nat, u: nat) {
    InCall(PhaseOf(s, t)) && InCall(PhaseOf(s, u)) ==> t == u
  }

  ghost predicate OneCall(s: State) {
    forall t: nat, u: nat {:trigger OnlyCall(s, t, u)} :: OnlyCall(s, t, u)
  }

  lemma OneCallStep(s: State, a: Action)
    requires OneCall(s) && Enabled(s, a) && !BeginsEarly(s, a)
    ensures OneCall(Next(s, a))
  {
    forall t: nat, u: nat ensures OnlyCall(Next(s, a), t, u) {
      assert OnlyCall(s, t, u);
      if !a.Answer? { assert OnlyCall(s, t, a.t) && OnlyCall(s, u, a.t); }
    }
  }

  lemma {:induction false} SerialRun(states: seq<State>, actions: seq<Action>, n: nat)
    requires IsRun(states, actions) && n <= |actions| && Serial(states, actions, n)
    ensures OneCall(states[n]) && NoOverlap(states, actions, n)
  {
    if n == 0 {
      assert forall t: nat, u: nat :: OnlyCall(START, t, u);
    } else {
      var m := n - 1;
      SerialRun(states, actions, m);
      assert StepAt(states, actions, m) && !EarlyAt(states, actions, m);
      OneCallStep(states[m], actions[m]);
      forall i: nat | i < n ensures !OverlapAt(states, actions, i) {
        if i == m { NeverInside(states[m], actions[m]); } else { assert !OverlapAt(states, actions, i); }
      }
    }
  }

  lemma NeverInside(s: State, a: Action)
    requires OneCall(s) && Enabled(s, a)
    ensures !Overlaps(s, a)
  {
    if a.WriteIv? {
      forall u: nat | u != a.t ensures !InCipher(PhaseOf(s, u)) { assert OnlyCall(s, a.t, u); }
    }
  }

  /**
  Calls that follow one another use fresh vectors as long as at most 2^63 requests are made, and
  every reply that is accepted is the firmware's reply to the thread's own request.
  */
  lemma {:induction false} SerialCallsAreSound(states: seq<State>, actions: seq<Action>, n: nat)
    requires IsRun(states, actions) && n <= |actions| && Serial(states, actions, n)
    ensures Fresh(states[n]) <==> |states[n].sealed| <= HALF
    ensures |states[n].sealed| <= HALF ==> OwnReplies(states[n])
  {
    SerialRun(states, actions, n);
    VectorsFreshIff(states, actions, n);
    RunClean(states, actions, n);
    if |states[n].sealed| <= HALF {
      forall t: nat ensures OwnReply(states[n], t) { CleanIsOwnReply(states[n], t); }
    }
  }

  // --- Runs of so many threads -----------------------------------------------------

  predicate ByThread(a: Action, n: nat) {
    a.Answer? || a.t < n
  }

  /** Every step is the firmware's or of one of the first n threads. */
  ghost predicate ByThreads(actions: seq<Action>, n: nat) {
    forall i: nat {:trigger actions[i]} :: i < |actions| ==> ByThread(actions[i], n)
  }

  ghost predicate LeadsTo(states: seq<State>, actions: seq<Action>, n: nat, s: State) {
    IsRun(states, actions) && ByThreads(actions, n) && states[|actions|] == s
  }

  ghost predicate Reachable(s: State, n: nat) {
    exists states: seq<State>, actions: seq<Action> :: LeadsTo(states, actions, n, s)
  }

  lemma StartReachable(n: nat)
    ensures Reachable(START, n)
  {
    assert LeadsTo([START], [], n, START);
  }

  lemma ReachNext(s: State, n: nat, a: Action)
    requires Reachable(s, n) && Enabled(s, a) && ByThread(a, n)
    ensures Reachable(Next(s, a), n)
  {
    var states: seq<State>, actions: seq<Action> :| LeadsTo(states, actions, n, s);
    var states', actions' := states + [Next(s, a)], actions + [a];
    forall i: nat | i < |actions'| ensures StepAt(states', actions', i) {
      if i < |actions| { assert StepAt(states, actions, i); }
    }
    assert LeadsTo(states', actions', n, Next(s, a));
  }

  // --- A call completes ------------------------------------------------------------

  function WithPhase(s: State, t: nat, p: Phase): State {
    s.(threads := s.threads[t := p])
  }

  /** No thread is in a call, the lock is free and the firmware has answered every request. */
  ghost predicate Quiescent(s: State) {
    && !s.aborted && !s.locked && s.count == 2 * |s.sealed|
    && forall u: nat {:trigger PhaseOf(s, u)} :: !InCall(PhaseOf(s, u))
  }

  lemma {:induction false} ReachableInv(s: State, n: nat)
    requires Reachable(s, n)
    ensures Inv(s)
  {
    var states: seq<State>, actions: seq<Action> :| LeadsTo(states, actions, n, s);
    RunInv(states, actions, |actions|);
  }

  /** The first half of a call: the request goes out under its own number. */
  lemma RequestGoesOut(s: State, n: nat, t: nat, payload: Data) returns (s4: State)
    requires Reachable(s, n) && t < n && Quiescent(s) && 2 * |s.sealed| + 2 < WORD
    ensures var k := |s.sealed|;
            && Reachable(s4, n)
            && s4 == WithPhase(s, t, Submitted(payload, k)).(
                       locked := true, iv := 2 * k + 1, context := Encrypting(2 * k + 1),
                       sealed := s.sealed + [Message(2 * k + 1, Sealed(2 * k + 1, payload))])
            && s.seqNum == 2 * k + 1
  {
    var k := |s.sealed|;
    ReachableInv(s, n);
    assert !Submission(s);
    ReachNext(s, n, Acquire(t, payload));
    var s1 := WithPhase(s, t, Holding(payload, Outside)).(locked := true);
    ReachNext(s1, n, WriteIv(t));
    var s2 := WithPhase(s, t, Holding(payload, Written)).(locked := true, iv := 2 * k + 1);
    assert s2 == Next(s1, WriteIv(t));
    ReachNext(s2, n, Init(t));
    var s3 := WithPhase(s, t, Holding(payload, Ready)).(
                locked := true, iv := 2 * k + 1, context := Encrypting(2 * k + 1));
    assert s3 == Next(s2, Init(t));
    ReachNext(s3, n, Seal(t));
    s4 := Next(s3, Seal(t));
    assert s4.threads == s.threads[t := Submitted(payload, k)];
  }

  /** The second half: the firmware answers, and the host delivers the answer. */
  lemma ReplyComesIn(s: State, n: nat, t: nat, payload: Data, reply: Data) returns (s9: State)
    requires Reachable(s, n) && t < n && !s.aborted && s.sealed != []
    requires PhaseOf(s, t) == Submitted(payload, |s.sealed| - 1)
    requires var number := 2 * |s.sealed| - 1;
             && number + 1 < WORD && s.seqNum == number && s.count == number - 1
             && s.sealed[|s.sealed| - 1] == Message(number, Sealed(number, payload))
    ensures var k, number := |s.sealed| - 1, 2 * |s.sealed|;
            && Reachable(s9, n) && !s9.aborted && !s9.locked && s9.sealed == s.sealed
            && PhaseOf(s9, t) == Accepted(payload, k, Message(number, Sealed(number, reply)))
            && s9.answered == s.answered + [Exchange(s.sealed[k], Message(number, Sealed(number, reply)))]
  {
    var k, number := |s.sealed| - 1, 2 * |s.sealed|;
    var request, response := s.sealed[k], Message(number, Sealed(number, reply));
    assert request in s.sealed;
    ReachNext(s, n, Answer(request, reply));
    var s5 := s.(answered := s.answered + [Exchange(request, response)], count := number);
    assert s5 == Next(s, Answer(request, reply));
    ReachNext(s5, n, Respond(t, response));
    var s6 := WithPhase(s5, t, Checked(payload, k, response, Outside)).(seqNum := Wrap(number + 1), locked := false);
    assert s6 == Next(s5, Respond(t, response));
    ReachNext(s6, n, WriteIv(t));
    var s7 := WithPhase(s6, t, Checked(payload, k, response, Written)).(iv := number);
    assert s7 == Next(s6, WriteIv(t));
    ReachNext(s7, n, Init(t));
    var s8 := WithPhase(s7, t, Checked(payload, k, response, Ready)).(context := Decrypting(number));
    assert s8 == Next(s7, Init(t));
    assert Exchange(request, response) in s8.answered;
    ReachNext(s8, n, Decrypt(t));
    s9 := Next(s8, Decrypt(t));
  }

  /** With an honest host a call gets the firmware's reply to what it asked. */
  lemma RequestGetsItsReply(s: State, n: nat, t: nat, payload: Data, reply: Data) returns (s': State)
    requires Reachable(s, n) && t < n && Quiescent(s) && 2 * |s.sealed| + 2 < WORD
    ensures var k := |s.sealed|;
            && Reachable(s', n) && !s'.aborted && !s'.locked && |s'.sealed| == k + 1
            && s'.sealed[k].body.payload == payload
            && PhaseOf(s', t).Accepted? && PhaseOf(s', t).request == k && PhaseOf(s', t).response.body.payload == reply
            && s'.answered == s.answered + [Exchange(s'.sealed[k], PhaseOf(s', t).response)]
  {
    var s4 := RequestGoesOut(s, n, t, payload);
    s' := ReplyComesIn(s4, n, t, payload, reply);
  }

  // --- Two threads -----------------------------------------------------------------

  const REQUEST := Message(1, Sealed(1, 10))
  const REPLY := Message(2, Sealed(2, 20))

  /** Thread 0 has the reply to its request and has given up the lock, but not yet decrypted. */
  const REPLIED := State(3, false, 1, Encrypting(1), map[0 := Checked(10, 0, REPLY, Outside)],
                         [REQUEST], [Exchange(REQUEST, REPLY)], 2, false)

  const SUBMITTED := State(1, true, 1, Encrypting(1), map[0 := Submitted(10, 0)], [REQUEST], [], 0, false)

  lemma SubmittedReachable(n: nat)
    requires n >= 1
    ensures Reachable(SUBMITTED, n)
  {
    StartReachable(n);
    ReachNext(START, n, Acquire(0, 10));
    var s1 := START.(locked := true, threads := map[0 := Holding(10, Outside)]);
    ReachNext(s1, n, WriteIv(0));
    var s2 := s1.(iv := 1, threads := map[0 := Holding(10, Written)]);
    assert s2 == Next(s1, WriteIv(0));
    ReachNext(s2, n, Init(0));
    var s3 := s2.(context := Encrypting(1), threads := map[0 := Holding(10, Ready)]);
    assert s3 == Next(s2, Init(0));
    ReachNext(s3, n, Seal(0));
    assert SUBMITTED == Next(s3, Seal(0));
  }

  lemma RepliedReachable(n: nat)
    requires n >= 1
    ensures Reachable(REPLIED, n)
  {
    SubmittedReachable(n);
    assert REQUEST in SUBMITTED.sealed;
    ReachNext(SUBMITTED, n, Answer(REQUEST, 20));
    var s5 := SUBMITTED.(answered := [Exchange(REQUEST, REPLY)], count := 2);
    assert s5 == Next(SUBMITTED, Answer(REQUEST, 20));
    ReachNext(s5, n, Respond(0, REPLY));
    assert REPLIED == Next(s5, Respond(0, REPLY));
  }

  const WAITING := Checked(10, 0, REPLY, Outside)
  const DECRYPTING := Checked(10, 0, REPLY, Written)

  /** Thread 1 has then taken the lock and written its number for encryption. */
  const BEGUN := REPLIED.(locked := true, iv := 3, threads := map[0 := WAITING, 1 := Holding(11, Written)])

  lemma BegunReachable(n: nat)
    requires n >= 2
    ensures Reachable(BEGUN, n)
  {
    RepliedReachable(n);
    ReachNext(REPLIED, n, Acquire(1, 11));
    var s1 := REPLIED.(locked := true, threads := map[0 := WAITING, 1 := Holding(11, Outside)]);
    assert s1 == Next(REPLIED, Acquire(1, 11));
    ReachNext(s1, n, WriteIv(1));
    assert BEGUN == Next(s1, WriteIv(1));
  }

  /**
  A vector used twice: thread 1 writes 3, thread 0 begins to decrypt and writes 2, and thread 1
  encrypts its request under 2, as the firmware did its reply.
  */
  lemma ReusedVector(n: nat) returns (s: State)
    requires n >= 2
    ensures Reachable(s, n) && |s.sealed| == 2 && |s.answered| == 1 && !Fresh(s)
    ensures s.sealed[1].number == 3 && s.sealed[1].body.vector == 2 == s.answered[0].response.body.vector
  {
    BegunReachable(n);
    ReachNext(BEGUN, n, WriteIv(0));
    var s3 := BEGUN.(iv := 2, threads := map[0 := DECRYPTING, 1 := Holding(11, Written)]);
    assert s3 == Next(BEGUN, WriteIv(0));
    ReachNext(s3, n, Init(1));
    var s4 := s3.(context := Encrypting(2), threads := map[0 := DECRYPTING, 1 := Holding(11, Ready)]);
    assert s4 == Next(s3, Init(1));
    ReachNext(s4, n, Seal(1));
    s := Next(s4, Seal(1));
    assert s.sealed[1].body.vector == s.answered[0].response.body.vector;
  }

  /** What thread 1 is handed: thread 0's reply with the number 4 in the header. */
  const RENUMBERED := Message(4, REPLY.body)

  const HANDED := State(5, false, 3, Encrypting(3), map[0 := WAITING, 1 := Checked(11, 1, RENUMBERED, Outside)],
                        [REQUEST, Message(3, Sealed(3, 11))], [Exchange(REQUEST, REPLY)], 2, false)

  lemma HandedReachable(n: nat)
    requires n >= 2
    ensures Reachable(HANDED, n)
  {
    BegunReachable(n);
    ReachNext(BEGUN, n, Init(1));
    var s3 := BEGUN.(context := Encrypting(3), threads := map[0 := WAITING, 1 := Holding(11, Ready)]);
    assert s3 == Next(BEGUN, Init(1));
    ReachNext(s3, n, Seal(1));
    var s4 := s3.(sealed := HANDED.sealed, threads := map[0 := WAITING, 1 := Submitted(11, 1)]);
    assert s4 == Next(s3, Seal(1));
    ReachNext(s4, n, Respond(1, RENUMBERED));
    assert HANDED == Next(s4, Respond(1, RENUMBERED));
  }

  /**
  Another thread's reply: thread 1 writes 4 to decrypt what it was handed, thread 0 begins to decrypt
  and writes 2, and thread 1 opens thread 0's reply under 2.
  */
  lemma WrongReply(n: nat) returns (s: State)
    requires n >= 2
    ensures Reachable(s, n) && |s.sealed| == 2 && |s.answered| == 1 && s.answered[0].request == s.sealed[0]
    ensures PhaseOf(s, 1).Accepted? && PhaseOf(s, 1).request == 1 && !OwnReply(s, 1)
    ensures PhaseOf(s, 1).response.body == s.answered[0].response.body
  {
    HandedReachable(n);
    ReachNext(HANDED, n, WriteIv(1));
    var s6 := HANDED.(iv := 4, threads := map[0 := WAITING, 1 := Checked(11, 1, RENUMBERED, Written)]);
    assert s6 == Next(HANDED, WriteIv(1));
    ReachNext(s6, n, WriteIv(0));
    var s7 := s6.(iv := 2, threads := map[0 := DECRYPTING, 1 := Checked(11, 1, RENUMBERED, Written)]);
    assert s7 == Next(s6, WriteIv(0));
    ReachNext(s7, n, Init(1));
    var s8 := s7.(context := Decrypting(2), threads := map[0 := DECRYPTING, 1 := Checked(11, 1, RENUMBERED, Ready)]);
    assert s8 == Next(s7, Init(1));
    assert Exchange(REQUEST, REPLY) in s8.answered;
    ReachNext(s8, n, Decrypt(1));
    s := Next(s8, Decrypt(1));
  }

  // --- Exactly one thread ----------------------------------------------------------

  ghost predicate NobodyElse(s: State, n: nat) {
    forall t: nat {:trigger PhaseOf(s, t)} :: n <= t ==> PhaseOf(s, t).Idle?
  }

  lemma {:induction false} OneThreadIsSerial(states: seq<State>, actions: seq<Action>, i: nat, n: nat)
    requires IsRun(states, actions) && ByThreads(actions, n) && n <= 1 && i <= |actions|
    ensures NobodyElse(states[i], n) && Serial(states, actions, i)
  {
    if i > 0 {
      var m := i - 1;
      OneThreadIsSerial(states, actions, m, n);
      assert StepAt(states, actions, m) && ByThread(actions[m], n);
      assert !EarlyAt(states, actions, m);
      forall t: nat | n <= t ensures PhaseOf(states[i], t).Idle? { assert PhaseOf(states[m], t).Idle?; }
      forall j: nat | j < i ensures !EarlyAt(states, actions, j) {
        if j < m { assert !EarlyAt(states, actions, j); }
      }
    }
  }

  lemma SoundWithOneThread(s: State, n: nat)
    requires Reachable(s, n) && n <= 1 && |s.sealed| <= HALF
    ensures Fresh(s) && OwnReplies(s)
  {
    var states: seq<State>, actions: seq<Action> :| LeadsTo(states, actions, n, s);
    OneThreadIsSerial(states, actions, |actions|, n);
    SerialCallsAreSound(states, actions, |actions|);
  }

  /**
  Within 2^63 requests, vectors are fresh in every reachable state exactly when no more than one
  thread makes guest requests, and so are all replies that are accepted the right ones.
  */
  lemma SoundIffOneThread(n: nat)
    ensures (forall s {:trigger Reachable(s, n)} :: Reachable(s, n) && |s.sealed| <= HALF ==> Fresh(s)) <==> n <= 1
    ensures (forall s {:trigger Reachable(s, n)} :: Reachable(s, n) && |s.sealed| <= HALF ==> OwnReplies(s)) <==> n <= 1
  {
    if n <= 1 {
      forall s | Reachable(s, n) && |s.sealed| <= HALF ensures Fresh(s) && OwnReplies(s) { SoundWithOneThread(s, n); }
    } else {
      var s := ReusedVector(n);
      var s' := WrongReply(n);
      assert !Fresh(s) && !OwnReplies(s');
    }
  }
}
