/**
Entering and leaving compartments: compartment_enter, compartment_resume, kernel_enter and
abort_kernel_callback (guest-verona-rt/arch/x86_64/compartment.asm) on one core.

Addresses count 8-byte words.  C++ kernel code appears as arbitrary pushes, pops and writes in
its own part of the kernel stack and arbitrary register changes; compartment code as arbitrary
changes of its registers, its stack pointer and the words it can write.  kernel_enter pushes the
compartment's flags in ring 0 wherever the compartment left its stack pointer, still under the
compartment's page table: where that table lets ring 0 write, the word is written, and elsewhere
the push faults in the kernel, which ends it.
*/
module Transitions {

  datatype Registers = Registers(rbx: int, rbp: int, r12: int, r13: int, r14: int, r15: int)

  /** Which page table and thread-local storage the core uses. */
  datatype Space = Kernel | Inside(self: int)

  /** RFLAGS: the status flags, which every arithmetic instruction sets, and the rest. */
  datatype Flags = Flags(control: int, arithmetic: int)

  datatype Cell = Word(word: int) | Rflags(flags: Flags)

  /** writable gives, for each compartment, the words that ring 0 can write under its page table. */
  datatype State = State(
    memory: map<int, Cell>,
    writable: map<int, set<int>>,
    low: int,
    rsp: int,
    regs: Registers,
    flags: Flags,
    lastSp: int,
    space: Space,
    rax: int,
    invalid: set<int>)

  /**
  An argument named arithmetic is what arithmetic instructions and C++ calls on the way leave in the
  status flags.
  */
  datatype Action =
    // Kernel code.
    | Enter(self: int, returnAddress: int, arithmetic: int)
    | AbortCallback(arithmetic: int)
    | CallReturn(result: int)
    | Push(cell: Cell)
    | Pop
    | Write(address: int, cell: Cell)
    | SetRegisters(regs: Registers, flags: Flags)
    | Remap(writable: map<int, set<int>>)
    // Compartment code.
    | Compute(rsp: int, regs: Registers, flags: Flags)
    | Store(address: int, cell: Cell)
    | Return(arithmetic: int)
    | Exit(arithmetic: int)
    | Call

  /** Where a C++ handler returns to in kernel_enter; the value is never read. */
  const RETURN_ADDRESS: int := 1
  const CLEAN_RFLAGS: Flags := Flags(0x202, 0)

  function Load(s: State, address: int): Cell {
    if address in s.memory then s.memory[address] else Word(0)
  }

  function LoadWord(s: State, address: int): int {
    match Load(s, address) case Word(w) => w case Rflags(_) => 0
  }

  function LoadFlags(s: State, address: int): Flags {
    match Load(s, address) case Word(_) => Flags(0, 0) case Rflags(f) => f
  }

  function Pushed(s: State, cell: Cell): State {
    s.(rsp := s.rsp - 1, memory := s.memory[s.rsp - 1 := cell])
  }

  function SaveRegisters(s: State): State {
    var sp := s.rsp - 6;
    s.(rsp := sp,
       memory := s.memory[sp := Word(s.regs.rbx)][sp + 1 := Word(s.regs.rbp)][sp + 2 := Word(s.regs.r12)]
                         [sp + 3 := Word(s.regs.r13)][sp + 4 := Word(s.regs.r14)][sp + 5 := Word(s.regs.r15)])
  }

  function RestoreRegisters(s: State): State {
    var sp := s.rsp;
    s.(rsp := sp + 6,
       regs := Registers(LoadWord(s, sp), LoadWord(s, sp + 1), LoadWord(s, sp + 2),
                         LoadWord(s, sp + 3), LoadWord(s, sp + 4), LoadWord(s, sp + 5)))
  }

  /** The flags are pushed after the subtraction that made room for the registers. */
  function SaveKernelState(s: State, self: int, arithmetic: int): State {
    var r := SaveRegisters(s);
    Pushed(Pushed(Pushed(r, Rflags(s.flags.(arithmetic := arithmetic))), Word(s.lastSp)), Word(self))
  }

  /**
  Pops the compartment, the last stack pointer, the flags and the registers from lastSp; the
  addition that drops the registers comes after the flags were popped.
  */
  function RestoreKernelState(s: State, arithmetic: int): State {
    var sp := s.lastSp;
    RestoreRegisters(s.(rsp := sp + 3, lastSp := LoadWord(s, sp + 1),
                        flags := LoadFlags(s, sp + 2).(arithmetic := arithmetic)))
  }

  function Popped(s: State): State {
    s.(rsp := s.rsp + 1)
  }

  /** The restored state with the result of compartment_enter, after its ret. */
  function Leave(s: State, result: int, arithmetic: int): State {
    Popped(RestoreKernelState(s, arithmetic).(rax := result, space := Kernel))
  }

  /** An exit or abort also invalidates the compartment found on the stack. */
  function LeaveWithError(s: State, arithmetic: int): State {
    Leave(s, 0, arithmetic).(invalid := s.invalid + {LoadWord(s, s.lastSp)})
  }

  /** The first instruction of kernel_enter. */
  function SaveCompartmentState(s: State): State {
    Pushed(s, Rflags(s.flags))
  }

  function Next(s: State, a: Action): State {
    match a
    case Enter(self, returnAddress, arithmetic) =>
      var saved := SaveKernelState(Pushed(s, Word(returnAddress)), self, arithmetic);
      saved.(lastSp := saved.rsp, space := Inside(self), flags := CLEAN_RFLAGS)
    case AbortCallback(arithmetic) => LeaveWithError(s, arithmetic)
    case CallReturn(result) =>
      // ret to kernel_enter, pop r11, then compartment_resume: popf and ret on the compartment's stack.
      var r11 := LoadWord(s, s.rsp + 1);
      s.(rsp := r11 + 2, rax := result, space := Inside(LoadWord(s, s.rsp + 2)), flags := LoadFlags(s, r11))
    case Push(cell) => Pushed(s, cell)
    case Pop => Popped(s)
    case Write(address, cell) => s.(memory := s.memory[address := cell])
    case SetRegisters(regs, flags) => s.(regs := regs, flags := flags)
    case Remap(writable) => s.(writable := writable)
    case Compute(rsp, regs, flags) => s.(rsp := rsp, regs := regs, flags := flags)
    case Store(address, cell) => s.(memory := s.memory[address := cell])
    case Return(arithmetic) => Leave(SaveCompartmentState(s), 1, arithmetic)
    case Exit(arithmetic) => LeaveWithError(SaveCompartmentState(s), arithmetic)
    case Call =>
      // The compartment's stack pointer is kept as r11.
      var r := SaveCompartmentState(s);
      Pushed(Pushed(r.(rsp := r.lastSp, space := Kernel), Word(r.rsp)), Word(RETURN_ADDRESS))
  }

  /** The compartment that kernel_enter passes on to the C++ handlers. */
  function CompartmentOf(s: State): int {
    LoadWord(s, s.lastSp)
  }

  // --- The open invocations --------------------------------------------------------

  datatype Context = Context(rsp: int, regs: Registers, flags: Flags, lastSp: int)

  function ContextOf(s: State): Context {
    Context(s.rsp, s.regs, s.flags, s.lastSp)
  }

  /** All but the status flags, which compartment_enter neither saves nor restores. */
  predicate Restored(c: Context, before: Context) {
    c.rsp == before.rsp && c.regs == before.regs && c.flags.control == before.flags.control && c.lastSp == before.lastSp
  }

  /** Where a run begins: the kernel stack in use, [low, rsp), and last_stack_ptr. */
  datatype Origin = Origin(low: int, rsp: int, lastSp: int)

  function OriginOf(s: State): Origin {
    Origin(s.low, s.rsp, s.lastSp)
  }

  /** An invocation that has not returned, or a call into the kernel that has not; step is where it began. */
  datatype Frame =
    | Entered(step: nat, self: int, before: Context)
    | Called(step: nat, sp: int)

  /** Where an invocation's saved state lies. */
  function Base(f: Frame): int
    requires f.Entered?
  {
    f.before.rsp - 10
  }

  function Moved(frames: seq<Frame>, n: nat, s: State, a: Action): seq<Frame> {
    match a
    case Enter(self, _, _) => frames + [Entered(n, self, ContextOf(s))]
    case Call => frames + [Called(n, s.rsp)]
    case Return(_) => frames[..Minus(|frames|, 1)]
    case Exit(_) => frames[..Minus(|frames|, 1)]
    case CallReturn(_) => frames[..Minus(|frames|, 1)]
    case AbortCallback(_) => frames[..Minus(|frames|, 2)]
    case _ => frames
  }

  function Minus(x: nat, y: nat): nat {
    if x < y then 0 else x - y
  }

  /** The end of the part of the stack that the running kernel code owns. */
  function Floor(frames: seq<Frame>, start: Origin): int {
    if |frames| < 2 || !frames[|frames| - 2].Entered? then start.rsp else Base(frames[|frames| - 2]) - 2
  }

  predicate CanWrite(s: State, address: int) {
    s.space.Inside? && s.space.self in s.writable && address in s.writable[s.space.self]
  }

  /** Under no compartment's page table can ring 0, let alone the compartment, write the kernel stack in use. */
  ghost predicate Protects(writable: map<int, set<int>>, start: Origin) {
    forall self, address :: self in writable && start.low <= address < start.rsp ==> address !in writable[self]
  }

  /**
  C++ code keeps to its own part of the stack, which does not overflow, and a callback returns with
  the stack pointer it was called with.  A compartment enters the kernel only where its flags can be pushed.
  */
  ghost predicate Enabled(s: State, frames: seq<Frame>, start: Origin, a: Action) {
    match a
    case Enter(_, _, _) => s.space == Kernel && s.low <= s.rsp - 10
    case AbortCallback(_) => s.space == Kernel && frames != []
    case CallReturn(_) => s.space == Kernel && frames != [] && s.rsp == Floor(frames, start)
    case Push(_) => s.space == Kernel && s.low < s.rsp
    case Pop => s.space == Kernel && s.rsp < Floor(frames, start)
    case Write(address, _) => s.space == Kernel && s.rsp <= address < Floor(frames, start)
    case SetRegisters(_, _) => s.space == Kernel
    case Remap(writable) => Protects(writable, start)
    case Compute(_, _, _) => s.space.Inside?
    case Store(address, _) => CanWrite(s, address)
    case Call => CanWrite(s, s.rsp - 1) && s.low <= s.lastSp - 2
    case Return(_) => CanWrite(s, s.rsp - 1)
    case Exit(_) => CanWrite(s, s.rsp - 1)
  }

  // --- The invariant ---------------------------------------------------------------

  /** The ten words that compartment_enter leaves below the stack pointer of its caller. */
  predicate Saved(s: State, f: Frame)
    requires f.Entered?
  {
    var b := Base(f);
    && Load(s, b) == Word(f.self) && Load(s, b + 1) == Word(f.before.lastSp)
    && Load(s, b + 2).Rflags? && Load(s, b + 2).flags.control == f.before.flags.control
    && Load(s, b + 3) == Word(f.before.regs.rbx) && Load(s, b + 4) == Word(f.before.regs.rbp)
    && Load(s, b + 5) == Word(f.before.regs.r12) && Load(s, b + 6) == Word(f.before.regs.r13)
    && Load(s, b + 7) == Word(f.before.regs.r14) && Load(s, b + 8) == Word(f.before.regs.r15)
  }

  predicate Alternates(frames: seq<Frame>) {
    forall k: nat {:trigger frames[k]} :: k < |frames| ==> (k % 2 == 0 <==> frames[k].Entered?)
  }

  /** An invocation begins below the stack of the call it was made from, and saved that call's link. */
  predicate Nested(frames: seq<Frame>, start: Origin, k: nat)
    requires Alternates(frames) && k < |frames| && k % 2 == 0
  {
    if k == 0 then frames[k].before.rsp <= start.rsp && frames[k].before.lastSp == start.lastSp
    else frames[k].before.rsp <= Base(frames[k - 2]) - 2 && frames[k].before.lastSp == Base(frames[k - 2])
  }

  predicate FrameOk(s: State, frames: seq<Frame>, start: Origin, k: nat)
    requires Alternates(frames) && k < |frames|
  {
    if k % 2 == 0 then Saved(s, frames[k]) && Nested(frames, start, k)
    else Load(s, Base(frames[k - 1]) - 1) == Word(frames[k].sp - 1)
  }

  ghost predicate FramesOk(s: State, frames: seq<Frame>, start: Origin) {
    && Alternates(frames)
    && forall k: nat {:trigger FrameOk(s, frames, start, k)} :: k < |frames| ==> FrameOk(s, frames, start, k)
  }

  /** The innermost open invocation. */
  function Innermost(frames: seq<Frame>): Frame
    requires Alternates(frames) && frames != []
  {
    if |frames| % 2 == 1 then frames[|frames| - 1] else frames[|frames| - 2]
  }

  /** The lowest word that an open frame needs. */
  function Lowest(frames: seq<Frame>): int
    requires Alternates(frames) && frames != []
  {
    if |frames| % 2 == 1 then Base(Innermost(frames)) else Base(Innermost(frames)) - 1
  }

  ghost predicate Inv(s: State, frames: seq<Frame>, start: Origin) {
    && FramesOk(s, frames, start)
    && s.low == start.low && Protects(s.writable, start)
    && (frames != [] ==> start.low <= Lowest(frames))
    && s.lastSp == (if frames == [] then start.lastSp else Base(Innermost(frames)))
    && (if |frames| % 2 == 0 then s.space == Kernel && s.rsp <= Floor(frames, start)
        else s.space == Inside(Innermost(frames).self))
  }

  /** Saved states lie above one another, the innermost lowest. */
  lemma {:induction false} Descending(frames: seq<Frame>, start: Origin, j: nat, k: nat)
    requires Alternates(frames) && j <= k < |frames| && j % 2 == 0 && k % 2 == 0
    requires forall i: nat {:trigger Nested(frames, start, i)} :: i < |frames| && i % 2 == 0 ==>
               Nested(frames, start, i)
    ensures Base(frames[k]) <= Base(frames[j])
    ensures j < k ==> Base(frames[k]) + 12 <= Base(frames[j])
  {
    if j < k {
      Descending(frames, start, j, k - 2);
      assert Nested(frames, start, k);
    }
  }

  /** The same words from limit up to top. */
  ghost predicate Agree(s: State, s': State, limit: int, top: int) {
    forall a {:trigger Load(s', a)} :: limit <= a < top ==> Load(s', a) == Load(s, a)
  }

  lemma BaseIsAbove(s: State, frames: seq<Frame>, start: Origin, k: nat)
    requires FramesOk(s, frames, start) && k < |frames| && k % 2 == 0
    ensures Lowest(frames) <= Base(frames[k]) && (k + 1 < |frames| ==> Lowest(frames) <= Base(frames[k]) - 1)
    ensures Base(frames[k]) + 10 <= start.rsp
  {
    forall i: nat | i < |frames| && i % 2 == 0 ensures Nested(frames, start, i) {
      assert FrameOk(s, frames, start, i);
    }
    var last := if |frames| % 2 == 1 then |frames| - 1 else |frames| - 2;
    Descending(frames, start, k, last);
    Descending(frames, start, 0, k);
    assert Nested(frames, start, 0);
  }

  lemma FramesKept(s: State, s': State, frames: seq<Frame>, start: Origin)
    requires FramesOk(s, frames, start) && (frames != [] ==> Agree(s, s', Lowest(frames), start.rsp))
    ensures FramesOk(s', frames, start)
  {
    forall k: nat | k < |frames| ensures FrameOk(s', frames, start, k) {
      assert FrameOk(s, frames, start, k);
      BaseIsAbove(s, frames, start, if k % 2 == 0 then k else k - 1);
    }
  }

  lemma FramesPrefix(s: State, frames: seq<Frame>, start: Origin, n: nat)
    requires FramesOk(s, frames, start) && n <= |frames|
    ensures FramesOk(s, frames[..n], start)
  {
    var prefix := frames[..n];
    forall k: nat | k < |prefix| ensures FrameOk(s, prefix, start, k) {
      assert FrameOk(s, frames, start, k);
    }
  }

  lemma FramesExtend(s: State, frames: seq<Frame>, start: Origin, f: Frame)
    requires FramesOk(s, frames, start) && (|frames| % 2 == 0 <==> f.Entered?)
    requires FrameOk(s, frames + [f], start, |frames|)
    ensures FramesOk(s, frames + [f], start)
  {
    var frames' := frames + [f];
    forall k: nat | k < |frames'| ensures FrameOk(s, frames', start, k) {
      if k < |frames| { assert FrameOk(s, frames, start, k); }
    }
  }

  lemma LowestOfPrefix(s: State, frames: seq<Frame>, start: Origin, n: nat)
    requires FramesOk(s, frames, start) && 0 < n <= |frames|
    ensures Lowest(frames) <= Lowest(frames[..n])
  {
    BaseIsAbove(s, frames, start, if n % 2 == 1 then n - 1 else n - 2);
  }

  // --- Every step keeps it ---------------------------------------------------------

  lemma RegistersSaved(s: State)
    ensures var r := SaveRegisters(s);
            && r == s.(rsp := s.rsp - 6, memory := r.memory)
            && Load(r, r.rsp) == Word(s.regs.rbx) && Load(r, r.rsp + 1) == Word(s.regs.rbp)
            && Load(r, r.rsp + 2) == Word(s.regs.r12) && Load(r, r.rsp + 3) == Word(s.regs.r13)
            && Load(r, r.rsp + 4) == Word(s.regs.r14) && Load(r, r.rsp + 5) == Word(s.regs.r15)
            && forall a {:trigger Load(r, a)} :: a >= s.rsp ==> Load(r, a) == Load(s, a)
  {
  }

  lemma WordPushed(s: State, cell: Cell)
    ensures var s' := Pushed(s, cell);
            && s' == s.(rsp := s.rsp - 1, memory := s'.memory) && Load(s', s'.rsp) == cell
            && forall a {:trigger Load(s', a)} :: a >= s.rsp ==> Load(s', a) == Load(s, a)
  {
  }

  lemma EnterSaves(s: State, self: int, returnAddress: int, arithmetic: int, n: nat)
    ensures var s' := Next(s, Enter(self, returnAddress, arithmetic));
            && s'.rsp == s'.lastSp == s.rsp - 10
            && Saved(s', Entered(n, self, ContextOf(s)))
            && forall a {:trigger Load(s', a)} :: a >= s.rsp ==> Load(s', a) == Load(s, a)
  {
    var s1 := Pushed(s, Word(returnAddress));
    WordPushed(s, Word(returnAddress));
    var s2 := SaveRegisters(s1);
    RegistersSaved(s1);
    var s3 := Pushed(s2, Rflags(s.flags.(arithmetic := arithmetic)));
    WordPushed(s2, Rflags(s.flags.(arithmetic := arithmetic)));
    var s4 := Pushed(s3, Word(s.lastSp));
    WordPushed(s3, Word(s.lastSp));
    var s5 := Pushed(s4, Word(self));
    WordPushed(s4, Word(self));
    var s' := Next(s, Enter(self, returnAddress, arithmetic));
    assert s'.memory == s5.memory;
    assert forall a {:trigger Load(s', a)} :: Load(s', a) == Load(s5, a);
  }

  lemma EnterInv(s: State, frames: seq<Frame>, start: Origin, n: nat, a: Action)
    requires a.Enter? && Inv(s, frames, start) && Enabled(s, frames, start, a)
    ensures Inv(Next(s, a), Moved(frames, n, s, a), start)
  {
    var s' := Next(s, a);
    var f := Entered(n, a.self, ContextOf(s));
    EnterSaves(s, a.self, a.returnAddress, a.arithmetic, n);
    FramesKept(s, s', frames, start);
    FramesExtend(s', frames, start, f);
  }

  /** The push of kernel_enter stays clear of the kernel stack in use. */
  lemma CompartmentStateSaved(s: State, frames: seq<Frame>, start: Origin)
    requires Inv(s, frames, start) && CanWrite(s, s.rsp - 1)
    ensures var r := SaveCompartmentState(s);
            && FramesOk(r, frames, start)
            && r == s.(rsp := s.rsp - 1, memory := r.memory)
  {
    FramesKept(s, SaveCompartmentState(s), frames, start);
  }

  /**
  What an invocation saved survives a push, wherever it goes, exactly when the push misses the nine
  words or stores what is there.
  */
  lemma PushKeepsSavedIff(s: State, f: Frame, address: int, cell: Cell)
    requires f.Entered? && Saved(s, f)
    ensures Saved(s.(memory := s.memory[address := cell]), f) <==>
            || !(Base(f) <= address <= Base(f) + 8)
            || cell == Load(s, address)
            || (address == Base(f) + 2 && cell.Rflags? && cell.flags.control == f.before.flags.control)
  {
  }

  lemma CallInv(s: State, frames: seq<Frame>, start: Origin, n: nat)
    requires Inv(s, frames, start) && Enabled(s, frames, start, Call)
    ensures Inv(Next(s, Call), Moved(frames, n, s, Call), start)
  {
    var r, s' := SaveCompartmentState(s), Next(s, Call);
    CompartmentStateSaved(s, frames, start);
    FramesKept(r, s', frames, start);
    FramesExtend(s', frames, start, Called(n, s.rsp));
  }

  /** The flags that a call pushes stay on the compartment's stack: the kernel's pushes go elsewhere. */
  lemma CallPushes(s: State, frames: seq<Frame>, start: Origin)
    requires Inv(s, frames, start) && Enabled(s, frames, start, Call)
    ensures Load(Next(s, Call), s.rsp - 1) == Rflags(s.flags)
  {
    BaseIsAbove(s, frames, start, |frames| - 1);
  }

  /** What compartment_enter saved is what its return restores. */
  lemma LeaveRestores(s: State, f: Frame, result: int, arithmetic: int)
    requires f.Entered? && s.lastSp == Base(f) && Saved(s, f)
    ensures Restored(ContextOf(Leave(s, result, arithmetic)), f.before)
    ensures Leave(s, result, arithmetic).flags == f.before.flags.(arithmetic := arithmetic)
    ensures LoadWord(s, s.lastSp) == f.self
  {
  }

  /** s is the state in which the saved state is popped: that of the kernel, or after the compartment's push. */
  lemma LeaveInv(s: State, frames: seq<Frame>, start: Origin, k: nat, result: int, arithmetic: int)
    requires FramesOk(s, frames, start) && k % 2 == 0 && (|frames| == k + 1 || |frames| == k + 2)
    requires s.low == start.low && Protects(s.writable, start) && start.low <= Lowest(frames)
    requires s.lastSp == Base(frames[k])
    ensures Inv(Leave(s, result, arithmetic), frames[..k], start)
    ensures Restored(ContextOf(Leave(s, result, arithmetic)), frames[k].before)
    ensures CompartmentOf(s) == frames[k].self
  {
    var s' := Leave(s, result, arithmetic);
    assert FrameOk(s, frames, start, k);
    LeaveRestores(s, frames[k], result, arithmetic);
    FramesPrefix(s, frames, start, k);
    if k > 0 { LowestOfPrefix(s, frames, start, k); }
    FramesKept(s, s', frames[..k], start);
  }

  lemma CallReturnInv(s: State, frames: seq<Frame>, start: Origin, n: nat, result: int)
    requires Inv(s, frames, start) && Enabled(s, frames, start, CallReturn(result))
    ensures Inv(Next(s, CallReturn(result)), Moved(frames, n, s, CallReturn(result)), start)
    ensures Next(s, CallReturn(result)).rsp == frames[|frames| - 1].sp + 1
    ensures Next(s, CallReturn(result)).rax == result
    ensures Next(s, CallReturn(result)).flags == LoadFlags(s, frames[|frames| - 1].sp - 1)
  {
    var s' := Next(s, CallReturn(result));
    var k := |frames| - 1;
    assert FrameOk(s, frames, start, k);
    assert FrameOk(s, frames, start, k - 1);
    FramesPrefix(s, frames, start, k);
    LowestOfPrefix(s, frames, start, k);
    FramesKept(s, s', frames[..k], start);
  }

  /** The states in which the saved state is popped, by what ends the invocation. */
  function Leaving(s: State, a: Action): State {
    if a.AbortCallback? then s else SaveCompartmentState(s)
  }

  predicate Leaves(a: Action) {
    a.Return? || a.Exit? || a.AbortCallback?
  }

  /** The level of the invocation that a return, exit or abort ends. */
  function Level(frames: seq<Frame>, a: Action): int {
    if a.AbortCallback? then |frames| - 2 else |frames| - 1
  }

  lemma LeavesInv(s: State, frames: seq<Frame>, start: Origin, n: nat, a: Action)
    requires Leaves(a) && Inv(s, frames, start) && Enabled(s, frames, start, a)
    ensures Inv(Next(s, a), Moved(frames, n, s, a), start)
    ensures var k := Level(frames, a);
            && 0 <= k < |frames| && k % 2 == 0 && Moved(frames, n, s, a) == frames[..k]
            && Restored(ContextOf(Next(s, a)), frames[k].before)
            && Next(s, a).flags.arithmetic == a.arithmetic
            && Next(s, a).space == Kernel
            && Next(s, a).rax == (if a.Return? then 1 else 0)
            && Next(s, a).invalid == s.invalid + (if a.Return? then {} else {frames[k].self})
  {
    var k := Level(frames, a);
    if !a.AbortCallback? { CompartmentStateSaved(s, frames, start); }
    LeaveInv(Leaving(s, a), frames, start, k, if a.Return? then 1 else 0, a.arithmetic);
    FramesKept(Leave(Leaving(s, a), if a.Return? then 1 else 0, a.arithmetic), Next(s, a), frames[..k], start);
  }

  lemma StepInv(s: State, frames: seq<Frame>, start: Origin, n: nat, a: Action)
    requires Inv(s, frames, start) && Enabled(s, frames, start, a)
    ensures Inv(Next(s, a), Moved(frames, n, s, a), start)
  {
    if Leaves(a) {
      LeavesInv(s, frames, start, n, a);
    } else if a.Enter? {
      EnterInv(s, frames, start, n, a);
    } else if a.CallReturn? {
      CallReturnInv(s, frames, start, n, a.result);
    } else if a.Call? {
      CallInv(s, frames, start, n);
    } else {
      FramesKept(s, Next(s, a), frames, start);
    }
  }
}
