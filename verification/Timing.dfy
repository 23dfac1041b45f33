/**
The clock (guest-verona-rt/crt/time.cc): conversions between ticks of the time-stamp counter
and nanoseconds in 64-bit arithmetic, and time relative to boot or to the epoch.
*/
module Timing {
  import Arith
  import opened Words

  const NS_IN_S: nat := 1_000_000_000

  /** The largest frequency for which no product in the conversions wraps. */
  const MAX_FREQUENCY: nat := 18_446_744_074

  type Frequency = f: int | 0 < f < 0x1_0000_0000_0000_0000 witness 1

  function TickToNs(tick: Word, f: Frequency): Word {
    Arith.QuotientBound(Wrap(tick * 1_000_000_000), f);
    Wrap(tick * 1_000_000_000) / f
  }

  function NsToTick(ns: Word, f: Frequency): Word {
    Wrap(ns * f) / 1_000_000_000
  }

  // --- Exactness -------------------------------------------------------------------

  predicate Fits(tick: Word) {
    Wrap(tick * 1_000_000_000) == tick * 1_000_000_000
  }

  /** No tick count below the frequency wraps the product iff the frequency is at most MAX_FREQUENCY. */
  lemma TickToNsExact(f: Frequency)
    ensures (forall tick: Word {:trigger Fits(tick)} :: tick < f ==> Fits(tick)) <==> f <= MAX_FREQUENCY
  {
    if f > MAX_FREQUENCY { assert !Fits(18_446_744_074); }
  }

  lemma TickToNsIs(tick: Word, f: Frequency)
    requires tick < f <= MAX_FREQUENCY
    ensures TickToNs(tick, f) == tick * 1_000_000_000 / f
    ensures TickToNs(tick, f) < 1_000_000_000
  {
    Arith.QuotientBelow(tick * 1_000_000_000, f, 1_000_000_000);
  }

  lemma NsToTickIs(ns: Word, f: Frequency)
    requires ns < NS_IN_S && f <= MAX_FREQUENCY
    ensures NsToTick(ns, f) == ns * f / 1_000_000_000
    ensures NsToTick(ns, f) < f
  {
    Arith.MulMonotone(ns, 999_999_999, f);
    Arith.QuotientBelow(ns * f, 1_000_000_000, f);
  }

  /** Later ticks never convert to fewer nanoseconds. */
  lemma TickToNsMonotone(a: Word, b: Word, f: Frequency)
    requires a <= b < f <= MAX_FREQUENCY
    ensures TickToNs(a, f) <= TickToNs(b, f)
  {
    TickToNsIs(a, f);
    TickToNsIs(b, f);
    Arith.QuotientMonotone(a * 1_000_000_000, b * 1_000_000_000, f);
  }

  /** Converting to nanoseconds and back never gains, and loses less than one tick and one nanosecond's worth. */
  lemma TickRoundTrip(tick: Word, f: Frequency)
    requires tick < f <= MAX_FREQUENCY
    ensures NsToTick(TickToNs(tick, f), f) <= tick
    ensures (tick - NsToTick(TickToNs(tick, f), f)) * 1_000_000_000 < f + 1_000_000_000
  {
    var ns := TickToNs(tick, f);
    TickToNsIs(tick, f);
    NsToTickIs(ns, f);
    Arith.RoundTrip(tick, 1_000_000_000, f);
  }

  lemma NsRoundTrip(ns: Word, f: Frequency)
    requires ns < NS_IN_S && f <= MAX_FREQUENCY
    ensures TickToNs(NsToTick(ns, f), f) <= ns
    ensures (ns - TickToNs(NsToTick(ns, f), f)) * f < f + 1_000_000_000
  {
    NsToTickIs(ns, f);
    TickToNsIs(NsToTick(ns, f), f);
    Arith.RoundTrip(ns, f, 1_000_000_000);
  }

  // --- The clock -------------------------------------------------------------------

  /** A time_t: 64-bit two's complement. */
  function Signed(x: int): int {
    var w := Wrap(x);
    if w < 0x8000_0000_0000_0000 then w else w - 0x1_0000_0000_0000_0000
  }

  lemma SignedAgain(x: int, y: int)
    ensures Signed(Signed(x) + y) == Signed(x + y)
  {
  }

  datatype Timespec = Timespec(sec: int, nsec: Word)

  /** The time that a whole number of ticks since the epoch (or since boot) amounts to. */
  function TimeOf(ticks: int, f: Frequency): Timespec
    requires ticks % f < WORD
  {
    Timespec(ticks / f, TickToNs(ticks % f, f))
  }

  /** The ticks since the epoch, or since boot, when so many have elapsed since boot. */
  function TicksAt(bootSec: int, bootTick: Word, f: Frequency, elapsed: Word, sinceBoot: bool): int {
    if sinceBoot then elapsed else bootSec * f + bootTick + elapsed
  }

  /** A time with its seconds reduced to a time_t. */
  function Reported(ticks: int, f: Frequency): Timespec
    requires ticks % f < WORD
  {
    var time := TimeOf(ticks, f);
    Timespec(Signed(time.sec), time.nsec)
  }

  /** The unsigned difference of two values of the time-stamp counter. */
  function Elapsed(ticksAtBoot: Word, tick: Word): Word {
    Wrap(tick as int - ticksAtBoot as int)
  }

  class Clock {
    const frequency: Frequency
    var bootSec: int
    var bootTick: Word
    var ticksAtBoot: Word

    ghost predicate Valid()
      reads this`bootTick
    {
      bootTick < MAX_FREQUENCY && frequency <= MAX_FREQUENCY
    }

    constructor (frequency: Frequency)
      requires frequency <= MAX_FREQUENCY
      ensures Valid() && this.frequency == frequency
    {
      this.frequency := frequency;
      bootSec, bootTick, ticksAtBoot := 0, 0, 0;
    }

    /** tick is the value of the time-stamp counter. */
    method InitTiming(sec: int, nsec: Word, tick: Word)
      requires Valid()
      modifies this
      ensures Valid() && bootSec == sec && ticksAtBoot == tick
      ensures nsec < NS_IN_S || nsec * frequency < WORD ==>
                bootTick * 1_000_000_000 <= nsec * frequency < (bootTick + 1) * 1_000_000_000
    {
      if nsec < NS_IN_S { NsToTickIs(nsec, frequency); }
      bootSec, bootTick := sec, NsToTick(nsec, frequency);
      ticksAtBoot := tick;
    }

    /**
    The reported time is exactly the elapsed ticks, plus the ticks at boot for absolute time,
    with the seconds reduced to a time_t.
    */
    method GetTimespec(tick: Word, sinceBoot: bool) returns (t: Timespec)
      requires Valid()
      ensures t == Reported(TicksAt(bootSec, bootTick, frequency, Elapsed(ticksAtBoot, tick), sinceBoot), frequency)
      ensures t.nsec < NS_IN_S
    {
      var elapsed := Elapsed(ticksAtBoot, tick);
      Arith.QuotientBound(elapsed, frequency);
      var sec, current := Signed(elapsed / frequency), elapsed % frequency;
      if !sinceBoot {
        ghost var whole := elapsed / frequency;
        SignedAgain(whole, bootSec);
        sec := Signed(sec + bootSec);
        current := Wrap(current + bootTick);
        Arith.Carry(elapsed, bootTick, bootSec, frequency);
        SignedAgain(whole + bootSec, current / frequency);
        sec := Signed(sec + current / frequency);
        current := current % frequency;
      }
      TickToNsIs(current, frequency);
      t := Timespec(sec, TickToNs(current, frequency));
    }
  }

  // --- Laws ------------------------------------------------------------------------

  predicate NotAfter(a: Timespec, b: Timespec) {
    a.sec < b.sec || (a.sec == b.sec && a.nsec <= b.nsec)
  }

  /** Time never goes back: more ticks never give an earlier time. */
  lemma TimeIsMonotone(a: int, b: int, f: Frequency)
    requires a <= b && f <= MAX_FREQUENCY
    ensures NotAfter(TimeOf(a, f), TimeOf(b, f))
  {
    Arith.FloorMonotone(a, b, f);
    if a / f == b / f {
      TickToNsMonotone(a % f, b % f, f);
    }
  }

  /** The seconds survive the reduction to a time_t exactly when they fit one. */
  lemma SecondsFit(sec: int)
    ensures Signed(sec) == sec <==> -0x8000_0000_0000_0000 <= sec < 0x8000_0000_0000_0000
  {
  }

  /** Which span of 2^64 seconds around the epoch a time lies in; those of span 0 fit a time_t. */
  function Span(sec: int): int {
    (sec + 0x8000_0000_0000_0000) / 0x1_0000_0000_0000_0000
  }

  lemma SignedIs(sec: int)
    ensures Signed(sec) == sec - Span(sec) * 0x1_0000_0000_0000_0000
  {
  }

  /** Two reported times are in order exactly when their seconds lie in one span. */
  lemma ReportedInOrderIff(a: int, b: int, f: Frequency)
    requires a <= b < a + WORD && f <= MAX_FREQUENCY
    ensures NotAfter(Reported(a, f), Reported(b, f)) <==> Span(a / f) == Span(b / f)
  {
    TimeIsMonotone(a, b, f);
    Arith.FloorMonotone(a, b, f);
    Arith.QuotientGrowth(a, b, f);
    SignedIs(a / f);
    SignedIs(b / f);
  }

  /**
  Two readings of one clock, the second not before the first: the reported time does not go back
  exactly when the seconds stay in one span.  For a boot time below a second past a time_t, that is
  when they do not pass the end of time_t in between.
  */
  method TwoReadings(clock: Clock, tick1: Word, tick2: Word, sinceBoot: bool) returns (t1: Timespec, t2: Timespec)
    requires clock.Valid()
    requires Elapsed(clock.ticksAtBoot, tick1) <= Elapsed(clock.ticksAtBoot, tick2)
    ensures var f := clock.frequency;
            var sec1 := TicksAt(clock.bootSec, clock.bootTick, f, Elapsed(clock.ticksAtBoot, tick1), sinceBoot) / f;
            var sec2 := TicksAt(clock.bootSec, clock.bootTick, f, Elapsed(clock.ticksAtBoot, tick2), sinceBoot) / f;
            && (NotAfter(t1, t2) <==> Span(sec1) == Span(sec2))
            && (Span(clock.bootSec) == 0 && clock.bootTick < f ==>
                  (NotAfter(t1, t2) <==> !(sec1 < 0x8000_0000_0000_0000 <= sec2)))
  {
    t1 := clock.GetTimespec(tick1, sinceBoot);
    t2 := clock.GetTimespec(tick2, sinceBoot);
    ghost var f, e1, e2 := clock.frequency, Elapsed(clock.ticksAtBoot, tick1), Elapsed(clock.ticksAtBoot, tick2);
    ghost var ticks1 := TicksAt(clock.bootSec, clock.bootTick, f, e1, sinceBoot);
    ghost var ticks2 := TicksAt(clock.bootSec, clock.bootTick, f, e2, sinceBoot);
    ReportedInOrderIff(ticks1, ticks2, f);
    Arith.FloorMonotone(ticks1, ticks2, f);
    if Span(clock.bootSec) == 0 && clock.bootTick < f {
      SecondsBound(clock.bootSec, clock.bootTick, f, e1, sinceBoot);
      SecondsBound(clock.bootSec, clock.bootTick, f, e2, sinceBoot);
    }
  }

  /** As many ticks as the frequency add one second. */
  lemma OneSecondLater(ticks: int, f: Frequency)
    ensures TimeOf(ticks + f, f) == Timespec(TimeOf(ticks, f).sec + 1, TimeOf(ticks, f).nsec)
  {
    var q, r := ticks / f, ticks % f;
    assert ticks == q * f + r;
    assert ticks + f == (q + 1) * f + r;
    Arith.FloorUnique(ticks + f, f, q + 1, r);
  }

  /**
  A clock that is set at boot reads the boot time at that moment, to within a tick, and one second more
  when as many ticks as the frequency have passed; time since boot starts at zero.
  */
  method ReadAtBoot(frequency: Frequency, sec: int, nsec: Word, tick: Word)
    returns (boot: Timespec, later: Timespec, zero: Timespec, one: Timespec)
    requires frequency <= MAX_FREQUENCY && nsec < NS_IN_S
    ensures boot.sec == Signed(sec) && boot.nsec <= nsec
    ensures (nsec - boot.nsec) * frequency < frequency + 1_000_000_000
    ensures later == Timespec(Signed(sec + 1), boot.nsec)
    ensures zero == Timespec(0, 0) && one == Timespec(1, 0)
  {
    var clock := new Clock(frequency);
    clock.InitTiming(sec, nsec, tick);
    NsToTickIs(nsec, frequency);
    NsRoundTrip(nsec, frequency);
    ghost var bootTicks := sec * frequency + clock.bootTick;
    Arith.FloorUnique(bootTicks, frequency, sec, clock.bootTick);
    OneSecondLater(bootTicks, frequency);
    ElapsedDespiteWrap(tick, 0);
    ElapsedDespiteWrap(tick, frequency);
    OneSecondLater(0, frequency);
    BootTickIs(nsec, frequency, clock.bootTick);
    boot := clock.GetTimespec(tick, false);
    later := clock.GetTimespec(Wrap(tick + frequency), false);
    zero := clock.GetTimespec(tick, true);
    one := clock.GetTimespec(Wrap(tick + frequency), true);
  }

  lemma BootTickIs(nsec: Word, f: Frequency, bootTick: Word)
    requires nsec < NS_IN_S && f <= MAX_FREQUENCY
    requires bootTick * 1_000_000_000 <= nsec * f < (bootTick + 1) * 1_000_000_000
    ensures bootTick == NsToTick(nsec, f) < f
  {
    NsToTickIs(nsec, f);
    Arith.QuotientUnique(nsec * f, 1_000_000_000, bootTick, nsec * f - bootTick * 1_000_000_000);
  }

  /** The seconds of a time lie in the span of a time_t or in the next one. */
  lemma SecondsBound(bootSec: int, bootTick: Word, f: Frequency, elapsed: Word, sinceBoot: bool)
    requires Span(bootSec) == 0 && bootTick < f
    ensures 0 <= Span(TicksAt(bootSec, bootTick, f, elapsed, sinceBoot) / f) <= 1
  {
    Arith.QuotientBound(elapsed, f);
    if !sinceBoot {
      var rest := elapsed % f + bootTick;
      Arith.Carry(elapsed, bootTick, bootSec, f);
      Arith.FloorUnique(rest, f, if rest < f then 0 else 1, if rest < f then rest else rest - f);
    }
  }

  /** Since boot, every time fits unless the counter runs at one tick a second. */
  lemma ElapsedFits(elapsed: Word, f: Frequency)
    ensures Signed(elapsed / f) == elapsed / f <==> f > 1 || elapsed < 0x8000_0000_0000_0000
  {
    var q := elapsed / f;
    assert Signed(q) == q <==> q < 0x8000_0000_0000_0000 by {
      Arith.QuotientBound(elapsed, f);
      SecondsFit(q);
    }
    if f > 1 { Arith.QuotientHalf(elapsed, f); }
  }

  /** The unsigned subtraction gives the ticks since boot even when the counter has wrapped. */
  lemma ElapsedDespiteWrap(ticksAtBoot: Word, ticks: Word)
    ensures Elapsed(ticksAtBoot, Wrap(ticksAtBoot + ticks)) == ticks
  {
  }
}
