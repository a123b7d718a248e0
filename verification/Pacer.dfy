/**
 * The shared payload pacer of tools/benchmark_tasfa_compression.py: writers reserve link time
 * block by block and sleep until it is theirs. Time and rates are exact reals.
 */
module Pacer {
  import opened Common

  datatype Result<T> = Ok(value: T) | ValueError(message: string)

  const BLOCK: nat := 65536

  function Max(a: real, b: real): (r: real) {
    if a < b then b else a
  }

  /** Link time of n bytes. */
  function Cost(n: nat, rate: real): (c: real)
    requires rate > 0.0
    ensures c >= 0.0
  {
    n as real / rate
  }

  lemma CostAdds(a: nat, b: nat, rate: real)
    requires rate > 0.0
    ensures Cost(a + b, rate) == Cost(a, rate) + Cost(b, rate)
  {
  }

  lemma CostGrows(a: nat, b: nat, rate: real)
    requires rate > 0.0 && a <= b
    ensures Cost(a, rate) <= Cost(b, rate)
  {
    CostAdds(a, b - a, rate);
  }

  // ----- the pacer -----

  datatype Budget = Budget(deadline: real, active: int)

  function Begun(b: Budget, now: real): (r: Budget) {
    Budget(if b.active == 0 then now else b.deadline, b.active + 1)
  }

  function Ended(b: Budget): (r: Budget) {
    b.(active := b.active - 1)
  }

  /** Bytes are charged from now when the link is idle, from the deadline otherwise. */
  function Charged(b: Budget, rate: real, n: nat, now: real): (r: Budget)
    requires rate > 0.0
  {
    if n == 0 then b
    else
      var from := if b.active == 0 then Max(now, b.deadline) else b.deadline;
      b.(deadline := from + Cost(n, rate))
  }

  function Delay(b: Budget, rate: real, n: nat, now: real): (r: real)
    requires rate > 0.0
  {
    if n == 0 then 0.0 else Max(0.0, Charged(b, rate, n, now).deadline - now)
  }

  class PayloadPacer {
    const bytesPerSecond: real
    var deadline: real
    var active: int

    ghost predicate Valid() { bytesPerSecond > 0.0 }

    ghost function View(): (r: Budget)
      reads this
    {
      Budget(deadline, active)
    }

    constructor (bytesPerSecond: real)
      requires bytesPerSecond > 0.0
      ensures Valid() && this.bytesPerSecond == bytesPerSecond && View() == Budget(0.0, 0)
    {
      this.bytesPerSecond := bytesPerSecond;
      deadline, active := 0.0, 0;
    }

    method Begin(now: real)
      modifies this
      ensures View() == Begun(old(View()), now)
    {
      if active == 0 {
        deadline := now;
      }
      active := active + 1;
    }

    method End()
      modifies this
      ensures View() == Ended(old(View()))
    {
      active := active - 1;
    }

    method Reserve(n: int, now: real) returns (r: Result<real>)
      requires Valid()
      modifies this
      ensures r.ValueError? <==> n < 0
      ensures n < 0 ==> View() == old(View())
      ensures n >= 0 ==> r == Ok(Delay(old(View()), bytesPerSecond, n, now))
      ensures n >= 0 ==> View() == Charged(old(View()), bytesPerSecond, n, now)
    {
      if n < 0 {
        return ValueError("negative payload size");
      }
      if n == 0 {
        return Ok(0.0);
      }
      if active == 0 {
        deadline := Max(now, deadline);
      }
      deadline := deadline + n as real / bytesPerSecond;
      return Ok(Max(0.0, deadline - now));
    }
  }

  method NewPacer(rateMbps: real) returns (r: Result<PayloadPacer>)
    ensures r.Ok? <==> rateMbps > 0.0
    ensures r.Ok? ==> r.value.bytesPerSecond == rateMbps * 125000.0 && r.value.View() == Budget(0.0, 0)
    ensures r.Ok? ==> fresh(r.value)
  {
    if rateMbps <= 0.0 {
      return ValueError("rate_mbps must be positive and finite");
    }
    var p := new PayloadPacer(rateMbps * 1000000.0 / 8.0);
    return Ok(p);
  }

  // ----- one writer on its own -----

  /** The time that the first k writes take together. */
  function Spent(takes: seq<real>, k: nat): (total: real)
    requires k <= |takes|
  {
    if k == 0 then 0.0 else Spent(takes, k - 1) + takes[k - 1]
  }

  /**
   * Writes the body block by block; sleep number k takes late[k] longer than asked and write
   * number k takes takes[k]. Every byte is written once and in order, never ahead of the rate, and
   * oversleeping does not add up: only the time spent writing does.
   */
  method WritePaced(body: seq<byte>, pacer: PayloadPacer, start: real, late: seq<real>, takes: seq<real>, most: real)
    returns (stream: seq<byte>, now: real)
    requires pacer.Valid() && pacer.active == 0
    requires |late| == |takes| == (|body| + 65535) / 65536
    requires forall k :: 0 <= k < |late| ==> 0.0 <= late[k] <= most && 0.0 <= takes[k]
    requires most >= 0.0
    modifies pacer
    ensures stream == body && pacer.active == 0
    ensures body != [] ==> pacer.deadline == start + Cost(|body|, pacer.bytesPerSecond)
    ensures start + Cost(|body|, pacer.bytesPerSecond) <= now
    ensures now <= start + Cost(|body|, pacer.bytesPerSecond) + most + Spent(takes, |takes|)
  {
    hide Cost;
    var rate := pacer.bytesPerSecond;
    stream, now := [], start;
    NoCost(rate);
    pacer.Begin(now);
    var offset, k := 0, 0;
    while offset < |body|
      invariant offset == k * BLOCK || (offset == |body| && k == |takes|)
      invariant offset <= |body| && stream == body[..offset] && k <= |takes|
      invariant pacer.active == 1 && pacer.deadline == start + Cost(offset, rate)
      invariant pacer.deadline <= now <= pacer.deadline + most + Spent(takes, k) && Spent(takes, k) >= 0.0
    {
      var next := if offset + BLOCK < |body| then offset + BLOCK else |body|;
      var block := body[offset..next];
      CostAdds(offset, |block|, rate);
      var r := pacer.Reserve(|block|, now);
      var delay := r.value;
      if delay > 0.0 {
        now := now + delay + late[k];
      }
      stream := stream + block;
      now := now + takes[k];
      offset, k := next, k + 1;
    }
    pacer.End();
  }

  // ----- any number of writers -----

  /**
   * A writer between calls, with bytes left to send, or asleep until its block may go out; or one
   * that has called reserve without begin and sleeps for that.
   */
  datatype Writer =
    | Idle
    | Writing(left: nat)
    | Asleep(left: nat, size: nat, until: real)
    | Loose(size: nat, until: real)

  /**
   * The pacer, its clock and its writers, with a history: `released` are the bytes written since
   * the run began, `busyFrom` and `reserved` when the current busy period began and what it
   * charged, and `forgotten` the bytes that slept when a begin moved the deadline back.
   */
  datatype Sys = Sys(
    budget: Budget, clock: real, writers: seq<Writer>, released: nat, busyFrom: real, reserved: nat, forgotten: nat)

  datatype Step =
    | Tick(time: real)
    | Begin(w: nat, length: nat)
    | Reserve(w: nat)
    | Direct(w: nat, size: nat)
    | Write(w: nat)
    | End(w: nat)
    | Fail(w: nat)

  function BlockSize(left: nat): (r: nat) {
    if left < BLOCK then left else BLOCK
  }

  predicate Enabled(s: Sys, step: Step) {
    match step
    case Tick(time) => s.clock <= time
    case Begin(w, _) => w < |s.writers| && s.writers[w].Idle?
    case Reserve(w) => w < |s.writers| && s.writers[w].Writing? && s.writers[w].left > 0
    case Direct(w, _) => w < |s.writers| && s.writers[w].Idle?
    case Write(w) => w < |s.writers| && (s.writers[w].Asleep? || s.writers[w].Loose?) && s.writers[w].until <= s.clock
    case End(w) => w < |s.writers| && s.writers[w].Writing? && s.writers[w].left == 0
    case Fail(w) => w < |s.writers| && !s.writers[w].Idle?
  }

  /** One step of one writer; a failed write or sleep ends the writer too. */
  function Next(s: Sys, rate: real, step: Step): (r: Sys)
    requires rate > 0.0 && Enabled(s, step)
  {
    match step
    case Tick(time) => s.(clock := time)
    case Begin(w, length) =>
      var s1 := s.(budget := Begun(s.budget, s.clock), writers := s.writers[w := Writing(length)]);
      if s.budget.active != 0 then s1
      else s1.(busyFrom := s.clock, reserved := 0,
               forgotten := s.forgotten + if s.clock < s.budget.deadline then Held(s.writers) else 0)
    case Reserve(w) =>
      var left := s.writers[w].left;
      var n := BlockSize(left);
      var until := s.clock + Delay(s.budget, rate, n, s.clock);
      s.(budget := Charged(s.budget, rate, n, s.clock), reserved := s.reserved + n,
         writers := s.writers[w := Asleep(left - n, n, until)])
    case Direct(w, n) =>
      var until := s.clock + Delay(s.budget, rate, n, s.clock);
      s.(budget := Charged(s.budget, rate, n, s.clock), reserved := s.reserved + n,
         writers := s.writers[w := Loose(n, until)])
    case Write(w) =>
      var a := s.writers[w];
      s.(writers := s.writers[w := if a.Asleep? then Writing(a.left) else Idle], released := s.released + a.size)
    case End(w) => s.(budget := Ended(s.budget), writers := s.writers[w := Idle])
    case Fail(w) =>
      s.(budget := if s.writers[w].Loose? then s.budget else Ended(s.budget), writers := s.writers[w := Idle])
  }

  predicate Legal(s: Sys, rate: real, steps: seq<Step>)
    requires rate > 0.0
    decreases |steps|
  {
    steps == [] || (Enabled(s, steps[0]) && Legal(Next(s, rate, steps[0]), rate, steps[1..]))
  }

  function Run(s: Sys, rate: real, steps: seq<Step>): (r: Sys)
    requires rate > 0.0 && Legal(s, rate, steps)
    decreases |steps|
  {
    if steps == [] then s else Run(Next(s, rate, steps[0]), rate, steps[1..])
  }

  // ----- sums over the writers -----

  function Busy(w: Writer): (r: nat) {
    if w.Idle? || w.Loose? then 0 else 1
  }

  function Running(ws: seq<Writer>): (r: nat) {
    if ws == [] then 0 else Busy(ws[0]) + Running(ws[1..])
  }

  function Size(w: Writer): (r: nat) {
    if w.Asleep? || w.Loose? then w.size else 0
  }

  function SizeBy(w: Writer, time: real): (r: nat) {
    if (w.Asleep? || w.Loose?) && w.until <= time then w.size else 0
  }

  /** Bytes reserved and not yet written. */
  function Held(ws: seq<Writer>): (r: nat) {
    if ws == [] then 0 else Size(ws[0]) + Held(ws[1..])
  }

  /** Those of them that may be written by the given time. */
  function Due(ws: seq<Writer>, time: real): (r: nat) {
    if ws == [] then 0 else SizeBy(ws[0], time) + Due(ws[1..], time)
  }

  lemma {:induction false} Replace(ws: seq<Writer>, i: nat, w: Writer, time: real)
    requires i < |ws|
    ensures Running(ws[i := w]) == Running(ws) - Busy(ws[i]) + Busy(w)
    ensures Held(ws[i := w]) == Held(ws) - Size(ws[i]) + Size(w)
    ensures Due(ws[i := w], time) == Due(ws, time) - SizeBy(ws[i], time) + SizeBy(w, time)
  {
    if i > 0 {
      assert ws[i := w][1..] == ws[1..][i - 1 := w];
      Replace(ws[1..], i - 1, w, time);
    } else {
      assert ws[i := w][1..] == ws[1..];
    }
  }

  lemma {:induction false} DueBounds(ws: seq<Writer>, time: real)
    ensures Due(ws, time) <= Held(ws)
  {
    if ws != [] {
      DueBounds(ws[1..], time);
    }
  }

  // ----- the rate guarantee -----

  /** Whatever may be written by any time from now on fits the rate since the origin. */
  ghost predicate Fits(s: Sys, rate: real, origin: real)
    requires rate > 0.0
  {
    forall time: real :: s.clock <= time ==>
      origin + Cost(s.released + Due(s.writers, time), rate) <= time + Cost(s.forgotten, rate)
  }

  ghost predicate Inv(s: Sys, rate: real, origin: real)
    requires rate > 0.0
  {
    && s.budget.active == Running(s.writers)
    && Fits(s, rate, origin)
    && origin + Cost(s.released + Held(s.writers), rate)
       <= (if s.budget.active > 0 then s.budget.deadline else Max(s.clock, s.budget.deadline)) + Cost(s.forgotten, rate)
    && (s.budget.active > 0 ==> s.budget.deadline == s.busyFrom + Cost(s.reserved, rate))
  }

  lemma NoCost(rate: real)
    requires rate > 0.0
    ensures Cost(0, rate) == 0.0
  {
  }

  lemma BeginKeepsInv(s: Sys, rate: real, origin: real, w: nat, length: nat)
    requires rate > 0.0 && Inv(s, rate, origin) && Enabled(s, Begin(w, length))
    ensures Inv(Next(s, rate, Begin(w, length)), rate, origin)
  {
    hide Cost;
    var t := Next(s, rate, Begin(w, length));
    var held := Held(s.writers);
    NoCost(rate);
    Replace(s.writers, w, Writing(length), s.clock);
    CostAdds(s.released, held, rate);
    CostAdds(s.forgotten, held, rate);
    CostGrows(s.released, s.released + Due(s.writers, s.clock), rate);
    CostGrows(s.forgotten, t.forgotten, rate);
    assert origin + Cost(s.released + Due(s.writers, s.clock), rate) <= s.clock + Cost(s.forgotten, rate);
    forall time: real | t.clock <= time
      ensures origin + Cost(t.released + Due(t.writers, time), rate) <= time + Cost(t.forgotten, rate)
    {
      Replace(s.writers, w, Writing(length), time);
    }
  }

  /** A reservation of n bytes by writer w, within begin and end or outside. */
  lemma ChargeKeepsInv(s: Sys, rate: real, origin: real, t: Sys, w: nat, n: nat)
    requires rate > 0.0 && Inv(s, rate, origin) && w < |s.writers|
    requires Size(s.writers[w]) == 0
    requires |t.writers| == |s.writers| && t.writers == s.writers[w := t.writers[w]]
    requires t.writers[w].Asleep? || t.writers[w].Loose?
    requires t.writers[w].size == n && t.writers[w].until == s.clock + Delay(s.budget, rate, n, s.clock)
    requires Busy(t.writers[w]) == Busy(s.writers[w])
    requires t == s.(budget := Charged(s.budget, rate, n, s.clock), reserved := s.reserved + n, writers := t.writers)
    ensures Inv(t, rate, origin)
  {
    hide Cost;
    var held := Held(s.writers);
    NoCost(rate);
    CostAdds(s.reserved, n, rate);
    CostAdds(s.released + held, n, rate);
    Replace(s.writers, w, t.writers[w], s.clock);
    forall time: real | t.clock <= time
      ensures origin + Cost(t.released + Due(t.writers, time), rate) <= time + Cost(t.forgotten, rate)
    {
      Replace(s.writers, w, t.writers[w], time);
      if n > 0 && t.writers[w].until <= time {
        DueBounds(s.writers, time);
        CostGrows(s.released + Due(s.writers, time) + n, s.released + held + n, rate);
        assert Due(t.writers, time) == Due(s.writers, time) + n;
      }
    }
  }

  lemma WriteKeepsInv(s: Sys, rate: real, origin: real, w: nat)
    requires rate > 0.0 && Inv(s, rate, origin) && Enabled(s, Write(w))
    ensures Inv(Next(s, rate, Write(w)), rate, origin)
  {
    hide Cost;
    var t := Next(s, rate, Write(w));
    Replace(s.writers, w, t.writers[w], s.clock);
    forall time: real | t.clock <= time
      ensures origin + Cost(t.released + Due(t.writers, time), rate) <= time + Cost(t.forgotten, rate)
    {
      Replace(s.writers, w, t.writers[w], time);
      assert t.released + Due(t.writers, time) == s.released + Due(s.writers, time);
    }
    assert t.released + Held(t.writers) == s.released + Held(s.writers);
  }

  lemma LeaveKeepsInv(s: Sys, rate: real, origin: real, w: nat)
    requires rate > 0.0 && Inv(s, rate, origin) && Enabled(s, Fail(w))
    ensures Inv(Next(s, rate, Fail(w)), rate, origin)
  {
    hide Cost;
    var t := Next(s, rate, Fail(w));
    Replace(s.writers, w, Idle, s.clock);
    CostGrows(t.released + Held(t.writers), s.released + Held(s.writers), rate);
    forall time: real | t.clock <= time
      ensures origin + Cost(t.released + Due(t.writers, time), rate) <= time + Cost(t.forgotten, rate)
    {
      Replace(s.writers, w, Idle, time);
      CostGrows(t.released + Due(t.writers, time), s.released + Due(s.writers, time), rate);
    }
  }

  lemma StepKeepsInv(s: Sys, rate: real, origin: real, step: Step)
    requires rate > 0.0 && Inv(s, rate, origin) && Enabled(s, step)
    ensures Inv(Next(s, rate, step), rate, origin)
  {
    hide Cost, Inv, Charged, Delay;
    match step
    case Tick(time) => TickKeepsInv(s, rate, origin, time);
    case Begin(w, length) => BeginKeepsInv(s, rate, origin, w, length);
    case Reserve(w) => ChargeKeepsInv(s, rate, origin, Next(s, rate, step), w, BlockSize(s.writers[w].left));
    case Direct(w, n) => ChargeKeepsInv(s, rate, origin, Next(s, rate, step), w, n);
    case Write(w) => WriteKeepsInv(s, rate, origin, w);
    case End(w) => LeaveKeepsInv(s, rate, origin, w);
    case Fail(w) => LeaveKeepsInv(s, rate, origin, w);
  }

  lemma TickKeepsInv(s: Sys, rate: real, origin: real, time: real)
    requires rate > 0.0 && Inv(s, rate, origin) && Enabled(s, Tick(time))
    ensures Inv(Next(s, rate, Tick(time)), rate, origin)
  {
    hide Cost;
  }

  lemma {:induction false} RunKeepsInv(s: Sys, rate: real, origin: real, steps: seq<Step>)
    requires rate > 0.0 && Inv(s, rate, origin) && Legal(s, rate, steps)
    ensures Inv(Run(s, rate, steps), rate, origin)
    decreases |steps|
  {
    hide Inv, Next, Enabled;
    if steps != [] {
      StepKeepsInv(s, rate, origin, steps[0]);
      RunKeepsInv(Next(s, rate, steps[0]), rate, origin, steps[1..]);
    }
  }

  /** No writer is at work and nothing has been counted yet; the deadline may be anything. */
  predicate Quiet(s: Sys) {
    && s.budget.active == 0 && s.released == 0 && s.forgotten == 0
    && forall i :: 0 <= i < |s.writers| ==> s.writers[i].Idle?
  }

  lemma {:induction false} AllIdle(ws: seq<Writer>)
    requires forall i :: 0 <= i < |ws| ==> ws[i].Idle?
    ensures Running(ws) == 0 && Held(ws) == 0
  {
    if ws != [] {
      AllIdle(ws[1..]);
    }
  }

  lemma QuietInv(s: Sys, rate: real)
    requires rate > 0.0 && Quiet(s)
    ensures Inv(s, rate, s.clock)
  {
    hide Cost;
    NoCost(rate);
    AllIdle(s.writers);
    forall time: real | s.clock <= time
      ensures s.clock + Cost(s.released + Due(s.writers, time), rate) <= time + Cost(s.forgotten, rate)
    {
      DueBounds(s.writers, time);
    }
  }

  /**
   * In every interleaving, over one busy period or many, with late sleepers, failed writes and
   * reservations outside begin and end, the bytes written since any quiet moment exceed the rate
   * times the time gone by at most by what begins have forgotten.
   */
  lemma RateExceededByForgotten(s: Sys, rate: real, steps: seq<Step>)
    requires rate > 0.0 && Quiet(s) && Legal(s, rate, steps)
    ensures var t := Run(s, rate, steps);
      t.released as real <= rate * (t.clock - s.clock) + t.forgotten as real
  {
    hide Cost, Run, Legal;
    QuietInv(s, rate);
    RunKeepsInv(s, rate, s.clock, steps);
    var t := Run(s, rate, steps);
    assert s.clock + Cost(t.released + Due(t.writers, t.clock), rate) <= t.clock + Cost(t.forgotten, rate);
    CostGrows(t.released, t.released + Due(t.writers, t.clock), rate);
    CostBound(t.released, t.forgotten, rate, t.clock - s.clock);
  }

  lemma CostBound(n: nat, extra: nat, rate: real, time: real)
    requires rate > 0.0 && Cost(n, rate) <= time + Cost(extra, rate)
    ensures n as real <= rate * time + extra as real
  {
    hide Cost;
    CostTimesRate(n, rate);
    CostTimesRate(extra, rate);
    RateTimes(rate, Cost(n, rate), time + Cost(extra, rate));
    assert rate * (time + Cost(extra, rate)) == rate * time + rate * Cost(extra, rate);
  }

  lemma CostTimesRate(n: nat, rate: real)
    requires rate > 0.0
    ensures rate * Cost(n, rate) == n as real
  {
  }

  lemma RateTimes(rate: real, a: real, b: real)
    requires rate > 0.0 && a <= b
    ensures rate * a <= rate * b
  {
  }

  /** Writers that keep to begin and end: none reserves outside. */
  predicate Paced(steps: seq<Step>) {
    forall i :: 0 <= i < |steps| ==> !steps[i].Direct?
  }

  ghost predicate NoneLoose(ws: seq<Writer>) {
    forall i :: 0 <= i < |ws| ==> !ws[i].Loose?
  }

  lemma {:induction false} NoneAsleep(ws: seq<Writer>)
    requires NoneLoose(ws) && Running(ws) == 0
    ensures Held(ws) == 0
  {
    if ws != [] {
      NoneAsleep(ws[1..]);
    }
  }

  lemma {:induction false} NothingForgotten(s: Sys, rate: real, origin: real, steps: seq<Step>)
    requires rate > 0.0 && Inv(s, rate, origin) && Legal(s, rate, steps) && Paced(steps)
    requires NoneLoose(s.writers) && s.forgotten == 0
    ensures Run(s, rate, steps).forgotten == 0
    decreases |steps|
  {
    hide Cost, Charged, Delay, Fits;
    if steps != [] {
      var t := Next(s, rate, steps[0]);
      assert !steps[0].Direct?;
      StepKeepsInv(s, rate, origin, steps[0]);
      if s.budget.active == 0 {
        NoneAsleep(s.writers);
      }
      NothingForgotten(t, rate, origin, steps[1..]);
    }
  }

  /** Writers that all keep to begin and end, as write_paced does, never exceed the rate. */
  lemma RateNeverExceeded(s: Sys, rate: real, steps: seq<Step>)
    requires rate > 0.0 && Quiet(s) && Legal(s, rate, steps) && Paced(steps)
    ensures var t := Run(s, rate, steps);
      t.released as real <= rate * (t.clock - s.clock)
  {
    hide Run, Legal;
    QuietInv(s, rate);
    RateExceededByForgotten(s, rate, steps);
    NothingForgotten(s, rate, s.clock, steps);
  }

  // ----- when a begin can forget -----

  /** One writer sleeps on a reservation of its own when another begins. */
  function TooFast(s: Sys, rate: real): (steps: seq<Step>)
    requires rate > 0.0
  {
    [Begin(0, 0), End(0), Direct(0, 1), Begin(1, 1), Reserve(1), Tick(s.clock + Cost(1, rate)), Write(0), Write(1)]
  }

  /** The steps up to the second begin, from a quiet state. */
  lemma FirstHalf(s: Sys, rate: real) returns (t: Sys)
    requires rate > 0.0 && Quiet(s) && |s.writers| >= 2
    ensures Legal(s, rate, TooFast(s, rate)) == Legal(t, rate, TooFast(s, rate)[4..])
    ensures Legal(t, rate, TooFast(s, rate)[4..]) ==> Run(s, rate, TooFast(s, rate)) == Run(t, rate, TooFast(s, rate)[4..])
    ensures t.budget == Budget(s.clock, 1) && t.clock == s.clock && t.released == 0 && t.forgotten == 1
    ensures |t.writers| == |s.writers|
    ensures t.writers[0] == Loose(1, s.clock + Cost(1, rate)) && t.writers[1] == Writing(1)
  {
    hide Cost, Legal, Run;
    var all := TooFast(s, rate);
    AllIdle(s.writers);
    PositiveCost(rate);
    var t1 := Next(s, rate, Begin(0, 0));
    var t2 := Next(t1, rate, End(0));
    assert t2.writers == s.writers && t2.budget == Budget(s.clock, 0) && t2.forgotten == 0;
    var t3 := Next(t2, rate, Direct(0, 1));
    assert t3.writers == s.writers[0 := Loose(1, s.clock + Cost(1, rate))];
    Replace(s.writers, 0, Loose(1, s.clock + Cost(1, rate)), s.clock);
    t := Next(t3, rate, Begin(1, 1));
    RunsTo(s, rate, all, t1, all[1..]);
    RunsTo(t1, rate, all[1..], t2, all[2..]);
    RunsTo(t2, rate, all[2..], t3, all[3..]);
    RunsTo(t3, rate, all[3..], t, all[4..]);
  }

  /** The bound is reached, from every quiet state of two writers or more: a byte too many. */
  lemma RateExceeded(s: Sys, rate: real)
    requires rate > 0.0 && Quiet(s) && |s.writers| >= 2
    ensures Legal(s, rate, TooFast(s, rate))
    ensures var t := Run(s, rate, TooFast(s, rate));
      && t.released == 2 && t.forgotten == 1
      && t.released as real == rate * (t.clock - s.clock) + t.forgotten as real
  {
    hide Cost, Legal, Run;
    var all := TooFast(s, rate);
    PositiveCost(rate);
    CostTimesRate(1, rate);
    var t4 := FirstHalf(s, rate);
    var t5 := Next(t4, rate, Reserve(1));
    var t6 := Next(t5, rate, Tick(s.clock + Cost(1, rate)));
    var t7 := Next(t6, rate, Write(0));
    var t8 := Next(t7, rate, Write(1));
    RunsTo(t4, rate, all[4..], t5, all[5..]);
    RunsTo(t5, rate, all[5..], t6, all[6..]);
    RunsTo(t6, rate, all[6..], t7, all[7..]);
    RunsTo(t7, rate, all[7..], t8, []);
    RunNothing(t8, rate);
  }

  lemma PositiveCost(rate: real)
    requires rate > 0.0
    ensures Cost(1, rate) > 0.0
  {
  }

  lemma RunNothing(s: Sys, rate: real)
    requires rate > 0.0
    ensures Legal(s, rate, []) && Run(s, rate, []) == s
  {
  }

  /** A single writer's begin finds nobody asleep. */
  lemma {:induction false} AloneForgetsNothing(s: Sys, rate: real, steps: seq<Step>)
    requires rate > 0.0 && |s.writers| <= 1 && s.forgotten == 0 && Legal(s, rate, steps)
    ensures Run(s, rate, steps).forgotten == 0
    decreases |steps|
  {
    hide Cost, Charged, Delay;
    if steps != [] {
      if steps[0].Begin? {
        AllIdle(s.writers);
      }
      AloneForgetsNothing(Next(s, rate, steps[0]), rate, steps[1..]);
    }
  }

  /** Some run writes faster than the rate. */
  ghost predicate CanExceed(s: Sys, rate: real)
    requires rate > 0.0
  {
    exists steps :: Legal(s, rate, steps) && Run(s, rate, steps).released as real > rate * (Run(s, rate, steps).clock - s.clock)
  }

  /** With reservations outside begin and end, the rate can be exceeded exactly from two writers on. */
  lemma CanExceedIffTwoWriters(s: Sys, rate: real)
    requires rate > 0.0 && Quiet(s)
    ensures CanExceed(s, rate) <==> |s.writers| >= 2
  {
    hide Run, Legal;
    if |s.writers| >= 2 {
      RateExceeded(s, rate);
    } else {
      forall steps | Legal(s, rate, steps)
        ensures Run(s, rate, steps).released as real <= rate * (Run(s, rate, steps).clock - s.clock)
      {
        RateExceededByForgotten(s, rate, steps);
        AloneForgetsNothing(s, rate, steps);
      }
    }
  }

  lemma RunsTo(s: Sys, rate: real, steps: seq<Step>, t: Sys, rest: seq<Step>)
    requires rate > 0.0 && steps != [] && Enabled(s, steps[0]) && Next(s, rate, steps[0]) == t && steps[1..] == rest
    ensures Legal(s, rate, steps) == Legal(t, rate, rest)
    ensures Legal(t, rate, rest) ==> Run(s, rate, steps) == Run(t, rate, rest)
  {
    hide Next, Enabled;
  }

  /**
   * A block may go out no earlier and no later than when every byte charged in its busy period,
   * its own included, has had its time on the link.
   */
  lemma ReleaseTimeIsExact(s: Sys, rate: real, steps: seq<Step>, w: nat)
    requires rate > 0.0 && Quiet(s) && Legal(s, rate, steps) && Enabled(Run(s, rate, steps), Reserve(w))
    ensures var t := Run(s, rate, steps); var t' := Next(t, rate, Reserve(w));
      && t'.writers[w].until == Max(t.clock, t.busyFrom + Cost(t'.reserved, rate))
      && t'.reserved == t.reserved + BlockSize(t.writers[w].left)
  {
    hide Cost, Run, Legal;
    var t := Run(s, rate, steps);
    NoCost(rate);
    QuietInv(s, rate);
    RunKeepsInv(s, rate, s.clock, steps);
    RunsSome(t.writers, w);
    CostAdds(t.reserved, BlockSize(t.writers[w].left), rate);
  }

  lemma {:induction false} RunsSome(ws: seq<Writer>, w: nat)
    requires w < |ws| && Busy(ws[w]) == 1
    ensures Running(ws) > 0
  {
    if w > 0 {
      RunsSome(ws[1..], w - 1);
    }
  }
}
