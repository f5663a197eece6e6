/**
 The virtual real-time clock of student-distrib/rtc.c: one 1024 Hz interrupt, counted down
 separately for each process that opened the device.
 */
module Rtc {
  import opened Limits

  const MAX_FREQ: nat := 1024
  const MIN_FREQ: nat := 2

  /** The fields of a control block that the clock uses. */
  datatype Clock = Clock(present: bool, rtc: bool, fired: nat, curr: nat, rate: nat) {
    /** A process that waits with the whole of its period ahead. */
    predicate Rewound() { present && rtc && fired == 0 && curr == rate >= 1 }
  }

  /** One hardware interrupt. */
  function Tick(c: Clock): Clock {
    if c.present && c.rtc && c.fired == 0 then
      if c.curr <= 1 then c.(fired := c.fired + 1) else c.(curr := c.curr - 1)
    else c
  }

  function Open(c: Clock): Clock {
    c.(rtc := true, fired := 0, curr := MAX_FREQ / MIN_FREQ, rate := MAX_FREQ / MIN_FREQ)
  }

  function Close(c: Clock): Clock { c.(rtc := false) }

  /** A frequency that rtc_write accepts; freq & (freq - 1) is 0 for powers of two alone. */
  predicate Accepted(freq: bv32) {
    2 <= freq <= 1024 && freq & (freq - 1) == 0
  }

  function Write(c: Clock, count: nat, freq: bv32): (r: (Clock, int)) {
    if count != 4 || !Accepted(freq) || !c.rtc then (c, -1)
    else
      (c.(curr := Period(freq), rate := Period(freq)), 0)
  }

  /** rtc_read begins by forgetting an interrupt that nobody waited for. */
  function ReadEntry(c: Clock): Clock { c.(fired := 0) }

  /** One round of its waiting loop. */
  datatype Poll = Waiting(c: Clock) | Done(c: Clock) | Closed(c: Clock)

  function ReadPoll(c: Clock): Poll {
    if !c.rtc then Closed(c)
    else if c.fired > 0 then Done(c.(fired := c.fired - 1, curr := c.rate))
    else Waiting(c)
  }

  lemma AcceptedFrequencies(freq: bv32)
    ensures Accepted(freq) <==> freq in {2, 4, 8, 16, 32, 64, 128, 256, 512, 1024}
  {}

  /** rtc_rate for an accepted frequency. */
  function Period(freq: bv32): (rate: nat)
    requires Accepted(freq)
  {
    MAX_FREQ / (freq as nat)
  }

  lemma PeriodExact(freq: bv32)
    requires Accepted(freq)
    ensures var rate := Period(freq);
      (freq as nat) * rate == 1024 && 1 <= rate <= 512 && 1024 % rate == 0
  {
    AcceptedFrequencies(freq);
    if
    case freq == 2 => assert Period(2) == 512;
    case freq == 4 => assert Period(4) == 256;
    case freq == 8 => assert Period(8) == 128;
    case freq == 16 => assert Period(16) == 64;
    case freq == 32 => assert Period(32) == 32;
    case freq == 64 => assert Period(64) == 16;
    case freq == 128 => assert Period(128) == 8;
    case freq == 256 => assert Period(256) == 4;
    case freq == 512 => assert Period(512) == 2;
    case freq == 1024 => assert Period(1024) == 1;
  }

  /**
   A write is accepted exactly for four bytes that hold a power of two up to 1024, on an open
   clock; it then leaves an exact period that begins anew.
   */
  lemma RateExact(c: Clock, count: nat, freq: bv32)
    ensures var (r, answer) := Write(c, count, freq);
      if c.rtc && count == 4 && freq in {2, 4, 8, 16, 32, 64, 128, 256, 512, 1024} then
        && answer == 0 && (freq as nat) * r.rate == 1024 && 1 <= r.rate <= 512 && r.curr == r.rate
        && r.rtc && r.fired == c.fired && r.present == c.present
      else answer == -1 && r == c
  {
    AcceptedFrequencies(freq);
    if Accepted(freq) { PeriodExact(freq); }
  }

  // ---------------------------------------------------------------------------------
  // Ticks
  // ---------------------------------------------------------------------------------

  function Ticks(c: Clock, n: nat): Clock {
    if n == 0 then c else Tick(Ticks(c, n - 1))
  }

  lemma {:induction false} Countdown(c: Clock, n: nat)
    requires c.present && c.rtc && c.fired == 0 && n < c.curr
    ensures Ticks(c, n) == c.(curr := c.curr - n)
  {
    if n > 0 { Countdown(c, n - 1); }
  }

  /** After a completed read the clock fires on the rate-th tick and on none before. */
  lemma FiresExactly(c: Clock, n: nat)
    requires c.Rewound() && n <= c.rate
    ensures Ticks(c, n).fired == if n < c.rate then 0 else 1
  {
    if n < c.rate { Countdown(c, n); } else { Countdown(c, n - 1); }
  }

  /** A clock that has just been opened fires on the 512th tick of 1024 a second, and on none before. */
  lemma OpensAtTwoHertz(c: Clock, n: nat)
    requires c.present && n <= 512
    ensures Ticks(Open(c), n).fired == if n < 512 then 0 else 1
  {
    FiresExactly(Open(c), n);
  }

  /** A closed clock stands still, and whoever waits for it is let go. */
  lemma {:induction false} ClosedStands(c: Clock, n: nat)
    ensures Ticks(Close(c), n) == Close(c) && ReadPoll(Close(c)) == Closed(Close(c)) && !Close(c).rtc
  {
    if n > 0 { ClosedStands(c, n - 1); }
  }

  /** Once fired, further ticks change nothing until somebody reads. */
  lemma {:induction false} StaysFired(c: Clock, n: nat)
    requires c.fired > 0
    ensures Ticks(c, n) == c
  {
    if n > 0 { StaysFired(c, n - 1); }
  }

  /** A reader that comes back late has lost that interrupt but waits only for the next tick. */
  lemma LateReader(c: Clock, n: nat)
    requires c.Rewound() && n >= c.rate
    ensures var again := ReadEntry(Ticks(c, n));
      ReadPoll(again).Waiting? && ReadPoll(Tick(again)) == Done(c)
  {
    Countdown(c, c.rate - 1);
    TicksSum(c, c.rate, n - c.rate);
    StaysFired(Ticks(c, c.rate), n - c.rate);
  }

  lemma {:induction false} TicksSum(c: Clock, m: nat, n: nat)
    ensures Ticks(c, m + n) == Ticks(Ticks(c, m), n)
  {
    if n > 0 { TicksSum(c, m, n - 1); }
  }

  /** A process that reads again as soon as a read is done: its clock, and how many are done. */
  function Reader(c: Clock, ticks: nat): (Clock, nat) {
    if ticks == 0 then (c, 0)
    else
      var (before, done) := Reader(c, ticks - 1);
      match ReadPoll(Tick(before))
      case Done(after) => (ReadEntry(after), done + 1)
      case Waiting(after) => (after, done)
      case Closed(after) => (after, done)
  }

  lemma {:induction false} ReaderWaits(c: Clock, ticks: nat)
    requires c.Rewound() && ticks < c.rate
    ensures Reader(c, ticks) == (c.(curr := c.rate - ticks), 0)
  {
    if ticks > 0 { ReaderWaits(c, ticks - 1); }
  }

  lemma {:induction false} ReaderSum(c: Clock, m: nat, n: nat)
    ensures Reader(c, m + n)
      == var (mid, done) := Reader(c, m); var (end, more) := Reader(mid, n); (end, done + more)
  {
    if n > 0 { ReaderSum(c, m, n - 1); }
  }

  /** Such a process completes k reads in exactly k * rate ticks, and is as it was. */
  lemma {:induction false} ReaderKeepsTime(c: Clock, k: nat)
    requires c.Rewound()
    ensures Reader(c, k * c.rate) == (c, k)
  {
    if k > 0 {
      ReaderKeepsTime(c, k - 1);
      ReaderPeriod(c);
      OneMore(k, c.rate);
      ReaderSum(c, (k - 1) * c.rate, c.rate);
    }
  }

  lemma ReaderPeriod(c: Clock)
    requires c.Rewound()
    ensures Reader(c, c.rate) == (c, 1)
  {
    ReaderWaits(c, c.rate - 1);
    var fired := Tick(c.(curr := 1));
    assert fired == c.(curr := 1, fired := 1);
    assert ReadPoll(fired) == Done(c);
  }

  lemma OneMore(k: nat, rate: nat)
    requires k > 0
    ensures k * rate == (k - 1) * rate + rate && (k - 1) * rate >= 0
  {}

  // ---------------------------------------------------------------------------------
  // Every run
  // ---------------------------------------------------------------------------------

  datatype Event = OnTick | OnOpen | OnClose | OnWrite(count: nat, freq: bv32) | OnReadEntry | OnReadPoll

  function Step(c: Clock, e: Event): Clock {
    match e
    case OnTick => Tick(c)
    case OnOpen => Open(c)
    case OnClose => Close(c)
    case OnWrite(count, freq) => Write(c, count, freq).0
    case OnReadEntry => ReadEntry(c)
    case OnReadPoll => ReadPoll(c).c
  }

  function Run(c: Clock, es: seq<Event>): Clock
    decreases |es|
  {
    if es == [] then c else Run(Step(c, es[0]), es[1..])
  }

  predicate Sane(c: Clock) {
    c.fired <= 1 && (c.rtc ==> 1 <= c.curr <= c.rate <= 512 && MAX_FREQ % c.rate == 0)
  }

  lemma WriteSane(c: Clock, count: nat, freq: bv32)
    requires Sane(c)
    ensures Sane(Write(c, count, freq).0)
  {
    if Accepted(freq) { PeriodExact(freq); }
  }

  lemma StepSane(c: Clock, e: Event)
    requires Sane(c)
    ensures Sane(Step(c, e))
  {
    if e.OnWrite? { WriteSane(c, e.count, e.freq); }
  }

  /** The flag never counts beyond 1, and an open clock always has an exact period to run. */
  lemma {:induction false} RunSane(c: Clock, es: seq<Event>)
    requires Sane(c)
    ensures Sane(Run(c, es))
    decreases |es|
  {
    if es != [] {
      StepSane(c, es[0]);
      RunSane(Step(c, es[0]), es[1..]);
    }
  }

  class Globals {
    var clocks: seq<Clock>

    constructor (clocks: seq<Clock>)
      ensures this.clocks == clocks
    {
      this.clocks := clocks;
    }

    /** rtc_handler: every process from pid 3 on counts for itself. */
    method Handler()
      requires |clocks| == PROCESSES
      modifies this
      ensures |clocks| == PROCESSES
      ensures forall p :: 0 <= p < PROCESSES ==>
        clocks[p] == if p < TERMINALS then old(clocks[p]) else Tick(old(clocks[p]))
    {
      for pid := TERMINALS to PROCESSES
        invariant |clocks| == PROCESSES
        invariant forall p :: 0 <= p < PROCESSES ==>
          clocks[p] == if TERMINALS <= p < pid then Tick(old(clocks[p])) else old(clocks[p])
      {
        var c := clocks[pid];
        if c.present && c.rtc && c.fired == 0 {
          if c.curr <= 1 {
            clocks := clocks[pid := c.(fired := c.fired + 1)];
          } else {
            clocks := clocks[pid := c.(curr := c.curr - 1)];
          }
        }
      }
    }

    method RtcOpen(pid: nat)
      requires pid < |clocks|
      modifies this
      ensures clocks == old(clocks)[pid := Open(old(clocks)[pid])]
    {
      clocks := clocks[pid := clocks[pid].(rtc := true, fired := 0)];
      var rate := MAX_FREQ / MIN_FREQ;
      clocks := clocks[pid := clocks[pid].(curr := rate, rate := rate)];
    }

    method RtcWrite(pid: nat, count: nat, freq: bv32) returns (r: int)
      requires pid < |clocks|
      modifies this
      ensures clocks == old(clocks)[pid := Write(old(clocks)[pid], count, freq).0]
      ensures r == Write(old(clocks)[pid], count, freq).1
    {
      if count != 4 { return -1; }
      if freq < 2 || freq > 1024 || freq & (freq - 1) != 0 { return -1; }
      if !clocks[pid].rtc { return -1; }
      var rate := MAX_FREQ / (freq as nat);
      clocks := clocks[pid := clocks[pid].(curr := rate, rate := rate)];
      return 0;
    }
  }
}
