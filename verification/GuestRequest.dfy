/**
Guest requests to the SEV-SNP firmware: sev_typed_guest_request, msg_seq_num and
GuestRequestCrypto (guest-verona-rt/arch/x86_64/hv_sev_guest_request.cc), as steps of any
number of threads.

All threads share one initialisation vector and one cipher context.  A call to encrypt or
decrypt writes the vector, initialises the context from it, and then works on the context; the
lock is held around encrypt, but given up before decrypt.

The host carries the messages and may deliver any bytes at any time, with any number in the
header, which is not authenticated.  Sealing is ideal: a body opens under a number only if the
guest or the firmware sealed just that body under that number.  The firmware follows sections 7.3
and 8.26 of the SEV-SNP Firmware ABI Specification: it answers a request numbered one above its
message count, under the next number, and advances the count by two.
*/
module GuestRequest {
  import opened Words

  type Data = nat

  /** A payload encrypted under an initialisation vector. */
  datatype Sealed = Sealed(vector: Word, payload: Data)

  /** number is the sequence number in the header. */
  datatype Message = Message(number: Word, body: Sealed)

  /** A request the firmware has taken and the response it sealed for it. */
  datatype Exchange = Exchange(request: Message, response: Message)

  /** How far a thread is in encrypt or decrypt. */
  datatype Stage = Outside | Written | Ready

  /**
  Where a thread is in sev_typed_guest_request.  Holding and Submitted are inside the critical
  section; payload is what its caller asked, and request the position of that request among
  all that were sealed.
  */
  datatype Phase =
    | Idle
    | Holding(payload: Data, stage: Stage)
    | Submitted(payload: Data, request: nat)
    | Checked(payload: Data, request: nat, response: Message, stage: Stage)
    | Accepted(payload: Data, request: nat, response: Message)

  /** What the cipher context was last initialised for. */
  datatype Context = Unset | Encrypting(vector: Word) | Decrypting(vector: Word)

  datatype State = State(
    seqNum: Word,
    locked: bool,
    iv: Word,
    context: Context,
    threads: map<nat, Phase>,
    sealed: seq<Message>,
    answered: seq<Exchange>,
    count: nat,
    aborted: bool)

  datatype Action =
    | Acquire(t: nat, payload: Data)
    | WriteIv(t: nat)
    | Init(t: nat)
    | Seal(t: nat)
    | Respond(t: nat, response: Message)
    | Decrypt(t: nat)
    | Answer(request: Message, reply: Data)

  const START := State(1, false, 0, Unset, map[], [], [], 0, false)

  function PhaseOf(s: State, t: nat): Phase {
    if t in s.threads then s.threads[t] else Idle
  }

  predicate WasSealed(s: State, b: Sealed) {
    || (exists m :: m in s.sealed && m.body == b)
    || (exists e :: e in s.answered && e.response.body == b)
  }

  predicate AtStage(p: Phase, stage: Stage) {
    (p.Holding? || p.Checked?) && p.stage == stage
  }

  /** The number a thread passes to encrypt or decrypt. */
  function OwnNumber(s: State, t: nat): Word {
    match PhaseOf(s, t)
    case Checked(_, _, response, _) => response.number
    case _ => s.seqNum
  }

  predicate Enabled(s: State, a: Action) {
    && !s.aborted
    && match a
       case Acquire(t, _) => !s.locked && (PhaseOf(s, t).Idle? || PhaseOf(s, t).Accepted?)
       case WriteIv(t) => AtStage(PhaseOf(s, t), Outside)
       case Init(t) => AtStage(PhaseOf(s, t), Written)
       case Seal(t) => PhaseOf(s, t).Holding? && PhaseOf(s, t).stage == Ready
       case Respond(t, _) => PhaseOf(s, t).Submitted?
       case Decrypt(t) => PhaseOf(s, t).Checked? && PhaseOf(s, t).stage == Ready
       case Answer(m, _) =>
         WasSealed(s, m.body) && m.body.vector == m.number == s.count + 1 && m.number + 1 < WORD
  }

  /** Encrypting on a context initialised for decryption fails, and the other way round. */
  function Next(s: State, a: Action): State
    requires Enabled(s, a)
  {
    match a
    case Acquire(t, payload) => s.(locked := true, threads := s.threads[t := Holding(payload, Outside)])
    case WriteIv(t) => s.(iv := OwnNumber(s, t), threads := s.threads[t := PhaseOf(s, t).(stage := Written)])
    case Init(t) =>
      s.(context := if PhaseOf(s, t).Holding? then Encrypting(s.iv) else Decrypting(s.iv),
         threads := s.threads[t := PhaseOf(s, t).(stage := Ready)])
    case Seal(t) =>
      var payload := PhaseOf(s, t).payload;
      if !s.context.Encrypting? then s.(aborted := true)
      else
        s.(sealed := s.sealed + [Message(s.seqNum, Sealed(s.context.vector, payload))],
           threads := s.threads[t := Submitted(payload, |s.sealed|)])
    case Respond(t, m) =>
      if m.number != Wrap(s.seqNum + 1) then s.(aborted := true)
      else
        s.(seqNum := Wrap(s.seqNum + 2), locked := false,
           threads := s.threads[t := Checked(PhaseOf(s, t).payload, PhaseOf(s, t).request, m, Outside)])
    case Decrypt(t) =>
      var p := PhaseOf(s, t);
      if s.context == Decrypting(p.response.body.vector) && WasSealed(s, p.response.body)
      then s.(threads := s.threads[t := Accepted(p.payload, p.request, p.response)])
      else s.(aborted := true)
    case Answer(m, reply) =>
      s.(answered := s.answered + [Exchange(m, Message(m.number + 1, Sealed(m.number + 1, reply)))],
         count := s.count + 2)
  }

  // --- What every run keeps --------------------------------------------------------

  predicate InSection(p: Phase) {
    p.Holding? || p.Submitted?
  }

  /** At most one thread is in the critical section, and only while the lock is taken. */
  predicate LockOk(s: State, t: nat, u: nat) {
    InSection(PhaseOf(s, t)) ==> s.locked && (InSection(PhaseOf(s, u)) ==> u == t)
  }

  predicate NumberOk(s: State, k: nat)
    requires k < |s.sealed|
  {
    s.sealed[k].number == Wrap(2 * k + 1)
  }

  predicate AnswerOk(s: State, j: nat)
    requires j < |s.answered|
  {
    && s.answered[j].request.number == 2 * j + 1
    && s.answered[j].response.number == s.answered[j].response.body.vector == 2 * j + 2
  }

  predicate ThreadOk(s: State, t: nat) {
    var p := PhaseOf(s, t);
    && (p.Submitted? ==> p.request == |s.sealed| - 1)
    && (p.Submitted? || p.Checked? || p.Accepted? ==>
          p.request < |s.sealed| && s.sealed[p.request].body.payload == p.payload)
    && (p.Checked? || p.Accepted? ==> p.response.number == Wrap(2 * p.request + 2))
  }

  /** Some thread waits for the response to the last request. */
  ghost predicate Submission(s: State) {
    exists t: nat {:trigger PhaseOf(s, t)} :: PhaseOf(s, t).Submitted?
  }

  ghost predicate Exclusive(s: State) {
    forall t: nat, u: nat {:trigger LockOk(s, t, u)} :: LockOk(s, t, u)
  }

  /** msg_seq_num is the number of the submitted request, or else of the next one. */
  ghost predicate SequenceOk(s: State) {
    s.seqNum == Wrap(2 * |s.sealed| + if Submission(s) then -1 else 1)
  }

  ghost predicate LogsOk(s: State) {
    && (forall k: nat {:trigger NumberOk(s, k)} :: k < |s.sealed| ==> NumberOk(s, k))
    && (forall j: nat {:trigger AnswerOk(s, j)} :: j < |s.answered| ==> AnswerOk(s, j))
    && s.count == 2 * |s.answered|
  }

  ghost predicate ThreadsOk(s: State) {
    forall t: nat {:trigger ThreadOk(s, t)} :: ThreadOk(s, t)
  }

  ghost predicate Inv(s: State) {
    Exclusive(s) && SequenceOk(s) && LogsOk(s) && ThreadsOk(s)
  }

  // --- Every step keeps it ---------------------------------------------------------

  lemma ExclusiveStep(s: State, a: Action)
    requires Exclusive(s) && Enabled(s, a)
    ensures Exclusive(Next(s, a))
  {
    var s' := Next(s, a);
    forall t: nat, u: nat ensures LockOk(s', t, u) {
      assert LockOk(s, t, u) && LockOk(s, u, t);
      if !a.Answer? { assert LockOk(s, t, a.t) && LockOk(s, u, a.t) && LockOk(s, a.t, a.t); }
    }
  }

  lemma SequenceStep(s: State, a: Action)
    requires Inv(s) && Enabled(s, a)
    ensures SequenceOk(Next(s, a))
  {
    var s' := Next(s, a);
    match a
    case Seal(t) =>
      forall u: nat ensures !PhaseOf(s, u).Submitted? { assert LockOk(s, t, u); }
      if s.context.Encrypting? { assert PhaseOf(s', t).Submitted?; }
      else { assert forall u: nat :: PhaseOf(s', u) == PhaseOf(s, u); }
    case Respond(t, m) =>
      assert PhaseOf(s, t).Submitted?;
      if m.number == Wrap(s.seqNum + 1) {
        forall u: nat ensures !PhaseOf(s', u).Submitted? { assert LockOk(s, t, u); }
        WrapAgain(2 * |s.sealed| - 1, 2);
      } else {
        assert PhaseOf(s', t).Submitted?;
      }
    case Answer(_, _) =>
      assert forall u: nat :: PhaseOf(s', u) == PhaseOf(s, u);
    case _ =>
      assert forall u: nat :: PhaseOf(s', u).Submitted? <==> PhaseOf(s, u).Submitted?;
  }

  lemma WrapAgain(x: int, y: int)
    ensures Wrap(Wrap(x) + y) == Wrap(x + y)
  {
  }

  lemma LogsStep(s: State, a: Action)
    requires Inv(s) && Enabled(s, a)
    ensures LogsOk(Next(s, a))
  {
    var s' := Next(s, a);
    forall k: nat | k < |s'.sealed| ensures NumberOk(s', k) {
      if k < |s.sealed| { assert NumberOk(s, k); } else { SealsNext(s, a.t); }
    }
    forall j: nat | j < |s'.answered| ensures AnswerOk(s', j) {
      if j < |s.answered| { assert AnswerOk(s, j); }
    }
  }

  lemma SealsNext(s: State, t: nat)
    requires Inv(s) && PhaseOf(s, t).Holding?
    ensures s.seqNum == Wrap(2 * |s.sealed| + 1)
  {
    forall u: nat ensures !PhaseOf(s, u).Submitted? { assert LockOk(s, t, u); }
  }

  lemma ThreadsStep(s: State, a: Action)
    requires Inv(s) && Enabled(s, a)
    ensures ThreadsOk(Next(s, a))
  {
    var s' := Next(s, a);
    forall t: nat ensures ThreadOk(s', t) {
      if !a.Answer? && t == a.t { OwnStep(s, a); } else { OtherStep(s, a, t); }
    }
  }

  lemma OwnStep(s: State, a: Action)
    requires Inv(s) && Enabled(s, a) && !a.Answer?
    ensures ThreadOk(Next(s, a), a.t)
  {
    assert ThreadOk(s, a.t);
    if a.Respond? {
      assert PhaseOf(s, a.t).Submitted?;
      WrapAgain(2 * |s.sealed| - 1, 1);
    }
  }

  /** Another thread's step leaves a thread's request and response as they are. */
  lemma OtherStep(s: State, a: Action, t: nat)
    requires Inv(s) && Enabled(s, a) && (a.Answer? || t != a.t)
    ensures ThreadOk(Next(s, a), t)
  {
    assert ThreadOk(s, t);
    if a.Seal? { assert LockOk(s, a.t, t); }
  }

  lemma StepInv(s: State, a: Action)
    requires Inv(s) && Enabled(s, a)
    ensures Inv(Next(s, a))
  {
    ExclusiveStep(s, a);
    SequenceStep(s, a);
    LogsStep(s, a);
    ThreadsStep(s, a);
  }

  // --- Whole runs ------------------------------------------------------------------

  const HALF: nat := 0x8000_0000_0000_0000

  predicate StepAt(states: seq<State>, actions: seq<Action>, i: nat)
    requires |states| == |actions| + 1 && i < |actions|
  {
    Enabled(states[i], actions[i]) && states[i + 1] == Next(states[i], actions[i])
  }

  ghost predicate IsRun(states: seq<State>, actions: seq<Action>) {
    && |states| == |actions| + 1
    && states[0] == START
    && forall i: nat {:trigger StepAt(states, actions, i)} :: i < |actions| ==> StepAt(states, actions, i)
  }

  lemma {:induction false} RunInv(states: seq<State>, actions: seq<Action>, n: nat)
    requires IsRun(states, actions) && n <= |actions|
    ensures Inv(states[n])
  {
    if n == 0 {
      assert forall t: nat, u: nat :: LockOk(START, t, u);
      assert forall t: nat :: ThreadOk(START, t);
      assert !Submission(START);
    } else {
      RunInv(states, actions, n - 1);
      assert StepAt(states, actions, n - 1);
      StepInv(states[n - 1], actions[n - 1]);
    }
  }

  /** The requests are numbered 1, 3, 5 and so on in their headers, in the order they are sealed. */
  lemma {:induction false} RequestNumbers(states: seq<State>, actions: seq<Action>, n: nat, k: nat)
    requires IsRun(states, actions) && n <= |actions| && k < |states[n].sealed|
    ensures states[n].sealed[k].number == Wrap(2 * k + 1)
    ensures k < HALF ==> states[n].sealed[k].number == 2 * k + 1
  {
    RunInv(states, actions, n);
    assert NumberOk(states[n], k);
  }

  /** The firmware seals at most one response for each number. */
  lemma {:induction false} OneResponsePerRequest(states: seq<State>, actions: seq<Action>, n: nat, i: nat, j: nat)
    requires IsRun(states, actions) && n <= |actions| && i < j < |states[n].answered|
    ensures states[n].answered[i].request.number != states[n].answered[j].request.number
    ensures states[n].answered[i].response.body.vector != states[n].answered[j].response.body.vector
  {
    RunInv(states, actions, n);
    assert AnswerOk(states[n], i) && AnswerOk(states[n], j);
  }

  // --- What runs without overlapping cipher calls keep -----------------------------

  /** A thread has begun a call to encrypt or decrypt and not finished it. */
  predicate InCipher(p: Phase) {
    AtStage(p, Written) || AtStage(p, Ready)
  }

  /** The step begins a call to encrypt or decrypt while another thread is in one. */
  ghost predicate Overlaps(s: State, a: Action) {
    a.WriteIv? && exists u: nat {:trigger PhaseOf(s, u)} :: u != a.t && InCipher(PhaseOf(s, u))
  }

  /** One thread at a time is in a cipher call, and vector and context are its own. */
  ghost predicate CipherOk(s: State, t: nat, u: nat) {
    var p := PhaseOf(s, t);
    InCipher(p) ==>
      && (InCipher(PhaseOf(s, u)) ==> u == t)
      && (p.stage == Written ==> s.iv == OwnNumber(s, t))
      && (p.stage == Ready ==>
            s.context == if p.Holding? then Encrypting(OwnNumber(s, t)) else Decrypting(OwnNumber(s, t)))
  }

  predicate OwnVector(m: Message) {
    m.body.vector == m.number
  }

  ghost predicate ReplyOk(s: State, t: nat) {
    var p := PhaseOf(s, t);
    p.Accepted? ==> OwnVector(p.response) && WasSealed(s, p.response.body)
  }

  ghost predicate Clean(s: State) {
    && (forall t: nat, u: nat {:trigger CipherOk(s, t, u)} :: CipherOk(s, t, u))
    && (forall m {:trigger OwnVector(m)} :: m in s.sealed ==> OwnVector(m))
    && (forall e {:trigger e in s.answered} :: e in s.answered ==> e.request in s.sealed)
    && (forall t: nat {:trigger ReplyOk(s, t)} :: ReplyOk(s, t))
  }

  lemma CipherStep(s: State, a: Action, t: nat, u: nat)
    requires Inv(s) && Clean(s) && Enabled(s, a) && !Overlaps(s, a)
    ensures CipherOk(Next(s, a), t, u)
  {
    assert CipherOk(s, t, u) && CipherOk(s, u, t);
    if !a.Answer? {
      assert CipherOk(s, t, a.t) && CipherOk(s, a.t, t);
      assert LockOk(s, a.t, t);
    }
  }

  /** The firmware only answers requests: its own messages have even numbers. */
  lemma AnswersSealed(s: State, m: Message)
    requires Inv(s) && Clean(s) && WasSealed(s, m.body) && m.body.vector == m.number == s.count + 1
    ensures m in s.sealed
  {
    forall j: nat | j < |s.answered| ensures s.answered[j].response.body != m.body { assert AnswerOk(s, j); }
    var r :| r in s.sealed && r.body == m.body;
    assert OwnVector(r);
  }

  lemma CleanStep(s: State, a: Action)
    requires Inv(s) && Clean(s) && Enabled(s, a) && !Overlaps(s, a)
    ensures Clean(Next(s, a))
  {
    var s' := Next(s, a);
    forall t: nat, u: nat ensures CipherOk(s', t, u) { CipherStep(s, a, t, u); }
    forall m | m in s'.sealed ensures OwnVector(m) {
      if m in s.sealed { assert OwnVector(m); } else { assert CipherOk(s, a.t, a.t); }
    }
    forall e | e in s'.answered ensures e.request in s'.sealed {
      if e !in s.answered { AnswersSealed(s, a.request); }
    }
    forall t: nat ensures ReplyOk(s', t) { ReplyStep(s, a, t); }
  }

  lemma SealedStays(s: State, a: Action, b: Sealed)
    requires Enabled(s, a) && WasSealed(s, b)
    ensures WasSealed(Next(s, a), b)
  {
    var s' := Next(s, a);
    if m :| m in s.sealed && m.body == b {
      assert m in s'.sealed;
    } else {
      var e :| e in s.answered && e.response.body == b;
      assert e in s'.answered;
    }
  }

  lemma ReplyStep(s: State, a: Action, t: nat)
    requires Clean(s) && Enabled(s, a)
    ensures ReplyOk(Next(s, a), t)
  {
    assert ReplyOk(s, t) && CipherOk(s, t, t);
    var p := PhaseOf(s, t);
    if (p.Accepted? || p.Checked?) && WasSealed(s, p.response.body) { SealedStays(s, a, p.response.body); }
  }

  ghost predicate OverlapAt(states: seq<State>, actions: seq<Action>, i: nat)
    requires i < |states| && i < |actions|
  {
    Overlaps(states[i], actions[i])
  }

  /** In the first n steps no call to encrypt or decrypt begins inside another one. */
  ghost predicate NoOverlap(states: seq<State>, actions: seq<Action>, n: nat)
    requires n <= |states| && n <= |actions|
  {
    forall i: nat {:trigger OverlapAt(states, actions, i)} :: i < n ==> !OverlapAt(states, actions, i)
  }

  lemma {:induction false} RunClean(states: seq<State>, actions: seq<Action>, n: nat)
    requires IsRun(states, actions) && n <= |actions| && NoOverlap(states, actions, n)
    ensures Inv(states[n]) && Clean(states[n])
  {
    RunInv(states, actions, n);
    if n == 0 {
      assert forall t: nat, u: nat :: CipherOk(START, t, u);
      assert forall t: nat :: ReplyOk(START, t);
    } else {
      RunClean(states, actions, n - 1);
      assert StepAt(states, actions, n - 1) && !OverlapAt(states, actions, n - 1);
      CleanStep(states[n - 1], actions[n - 1]);
    }
  }

  // --- Fresh vectors and own replies -----------------------------------------------

  /** No two encryptions, of the guest or of the firmware, use the same initialisation vector. */
  ghost predicate Fresh(s: State) {
    && (forall i: nat, j: nat :: i < j < |s.sealed| ==> s.sealed[i].body.vector != s.sealed[j].body.vector)
    && (forall i: nat, j: nat :: i < |s.sealed| && j < |s.answered| ==>
          s.sealed[i].body.vector != s.answered[j].response.body.vector)
    && (forall i: nat, j: nat :: i < j < |s.answered| ==>
          s.answered[i].response.body.vector != s.answered[j].response.body.vector)
  }

  /** What a thread has accepted is the firmware's reply to its own request. */
  ghost predicate OwnReply(s: State, t: nat) {
    var p := PhaseOf(s, t);
    p.Accepted? ==>
      && p.request < |s.sealed|
      && s.sealed[p.request].body.payload == p.payload
      && Exchange(s.sealed[p.request], p.response) in s.answered
  }

  ghost predicate OwnReplies(s: State) {
    forall t: nat {:trigger OwnReply(s, t)} :: OwnReply(s, t)
  }

  lemma WrapParity(x: nat)
    ensures Wrap(x) % 2 == x % 2
  {
  }

  lemma CleanNumber(s: State, k: nat)
    requires Inv(s) && Clean(s) && k < |s.sealed|
    ensures s.sealed[k].body.vector == Wrap(2 * k + 1) && s.sealed[k].body.vector % 2 == 1
  {
    assert NumberOk(s, k) && OwnVector(s.sealed[k]);
    WrapParity(2 * k + 1);
  }

  lemma CleanIsFresh(s: State)
    requires Inv(s) && Clean(s) && |s.sealed| <= HALF
    ensures Fresh(s)
  {
    forall i: nat, j: nat | i < j < |s.sealed| ensures s.sealed[i].body.vector != s.sealed[j].body.vector {
      CleanNumber(s, i);
      CleanNumber(s, j);
    }
    forall i: nat, j: nat | i < |s.sealed| && j < |s.answered|
      ensures s.sealed[i].body.vector != s.answered[j].response.body.vector
    {
      CleanNumber(s, i);
      assert AnswerOk(s, j);
    }
    forall i: nat, j: nat | i < j < |s.answered|
      ensures s.answered[i].response.body.vector != s.answered[j].response.body.vector
    {
      assert AnswerOk(s, i) && AnswerOk(s, j);
    }
  }

  /** Without overlapping cipher calls the vectors are fresh exactly as long as at most 2^63 requests are made. */
  lemma {:induction false} VectorsFreshIff(states: seq<State>, actions: seq<Action>, n: nat)
    requires IsRun(states, actions) && n <= |actions| && NoOverlap(states, actions, n)
    ensures Fresh(states[n]) <==> |states[n].sealed| <= HALF
  {
    var s := states[n];
    RunClean(states, actions, n);
    if |s.sealed| <= HALF {
      CleanIsFresh(s);
    } else {
      CleanNumber(s, 0);
      CleanNumber(s, HALF);
      assert s.sealed[0].body.vector == s.sealed[HALF].body.vector;
    }
  }

  /** A request never passes for a response: sealed requests have odd numbers. */
  lemma IsAResponse(s: State, m: Message, request: nat) returns (j: nat)
    requires Inv(s) && Clean(s) && OwnVector(m) && m.number == Wrap(2 * request + 2) && WasSealed(s, m.body)
    ensures j < |s.answered| && s.answered[j].response == m
  {
    WrapParity(2 * request + 2);
    forall k: nat | k < |s.sealed| ensures s.sealed[k].body != m.body { CleanNumber(s, k); }
    var e :| e in s.answered && e.response.body == m.body;
    j :| j < |s.answered| && s.answered[j] == e;
    assert AnswerOk(s, j);
  }

  lemma CleanIsOwnReply(s: State, t: nat)
    requires Inv(s) && Clean(s) && |s.sealed| <= HALF
    ensures OwnReply(s, t)
  {
    var p := PhaseOf(s, t);
    if p.Accepted? {
      assert ThreadOk(s, t) && ReplyOk(s, t) && NumberOk(s, p.request);
      var j := IsAResponse(s, p.response, p.request);
      assert AnswerOk(s, j) && s.answered[j] in s.answered;
      var k: nat :| k < |s.sealed| && s.sealed[k] == s.answered[j].request;
      assert NumberOk(s, k);
    }
  }

  /**
  Whatever the host delivers, without overlapping cipher calls: a response that a thread accepts is
  numbered one above the thread's own request, and is the one that the firmware sealed for that request.
  */
  lemma {:induction false} AcceptedIsOwnReply(states: seq<State>, actions: seq<Action>, n: nat, t: nat)
    requires IsRun(states, actions) && n <= |actions| && NoOverlap(states, actions, n)
    requires PhaseOf(states[n], t).Accepted? && |states[n].sealed| <= HALF
    ensures OwnReply(states[n], t)
    ensures var p := PhaseOf(states[n], t);
            && states[n].sealed[p.request] == Message(2 * p.request + 1, Sealed(2 * p.request + 1, p.payload))
            && p.response.number == p.response.body.vector == 2 * p.request + 2
  {
    var s := states[n];
    RunClean(states, actions, n);
    CleanIsOwnReply(s, t);
    assert ThreadOk(s, t) && ReplyOk(s, t);
    var k := PhaseOf(s, t).request;
    assert NumberOk(s, k) && OwnVector(s.sealed[k]);
    var j: nat :| j < |s.answered| && s.answered[j] == Exchange(s.sealed[k], PhaseOf(s, t).response);
    assert AnswerOk(s, j);
  }
}
