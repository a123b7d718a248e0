/**
 * One connhold child process (tools/connhold.c): its slots, its shared counters, and every
 * step of run_child, with sockets, TLS and clocks as arbitrary inputs.
 */
module HoldChild {

  datatype State = FREE | CONNECT | HANDSHAKE | SEND | READ | IDLE

  /** `sid` is the HTTP/2 stream of the request in flight; `requests`, a history, counts the connection's requests. */
  datatype Slot = Slot(state: State, served: bool, sent: nat, sid: nat, requests: nat)

  const Empty := Slot(FREE, false, 0, 0, 0)

  /** stats_t; the source's counters are unsigned, so a negative value would be a wrap. */
  datatype Counters = Counters(
    opens: int, connecting: int, handshaking: int, live: int, servedNow: int,
    responses: int, connectFail: int, tlsFail: int, closed: int, timeouts: int)

  const Zero := Counters(0, 0, 0, 0, 0, 0, 0, 0, 0, 0)

  /** --tls and --h2, and the length build_req gives the request on a stream. */
  datatype Config = Config(tls: bool, h2: bool, reqLen: nat -> nat)

  datatype Handshake = Done | Again | Failed
  datatype Write = Wrote(n: nat) | WriteBlocks | WriteFails
  datatype Read = Got(consumed: int) | ReadBlocks | ReadFails

  /** What the operating system and the peer answer during one call of on_event. */
  datatype Event = Event(soError: bool, handshake: Handshake, outputs: seq<Write>, readable: bool, inputs: seq<Read>)

  // ----- the steps, on one slot and the counters -----

  datatype Pair = Pair(slot: Slot, c: Counters)

  /** An outcome and whether on_event goes on to its next phase. */
  datatype Phase = Stop(p: Pair) | Go(p: Pair)

  function Close(p: Pair): (r: Pair) {
    var c := p.c;
    var c1 := match p.slot.state
      case CONNECT => c.(connecting := c.connecting - 1)
      case HANDSHAKE => c.(handshaking := c.handshaking - 1)
      case FREE => c
      case _ => c.(live := c.live - 1);
    Pair(Empty, if p.slot.served then c1.(servedNow := c1.servedNow - 1) else c1)
  }

  function CloseBroken(p: Pair): (r: Pair) {
    Close(p.(c := p.c.(closed := p.c.closed + 1)))
  }

  function StartSend(cfg: Config, s: Slot): (r: Slot) {
    s.(state := SEND, sent := 0, requests := s.requests + 1,
       sid := if !cfg.h2 then s.sid else if s.sid == 0 then 1 else (s.sid + 2) % 0x1_0000_0000)
  }

  function OnConnect(cfg: Config, p: Pair, ev: Event): (r: Phase) {
    var c := p.c;
    if p.slot.state != CONNECT then Go(p)
    else if ev.soError then Stop(Close(p.(c := c.(connectFail := c.connectFail + 1))))
    else if cfg.tls then
      Go(Pair(p.slot.(state := HANDSHAKE), c.(connecting := c.connecting - 1, handshaking := c.handshaking + 1)))
    else
      Stop(Pair(StartSend(cfg, p.slot), c.(connecting := c.connecting - 1, live := c.live + 1)))
  }

  function OnHandshake(cfg: Config, p: Pair, ev: Event): (r: Phase) {
    var c := p.c;
    if p.slot.state != HANDSHAKE then Go(p)
    else match ev.handshake
      case Done => Go(Pair(StartSend(cfg, p.slot), c.(handshaking := c.handshaking - 1, live := c.live + 1)))
      case Again => Stop(p)
      case Failed => Stop(Close(p.(c := c.(tlsFail := c.tlsFail + 1))))
  }

  /** The write loop; a script that has run out means the socket blocks. */
  function OnSend(cfg: Config, p: Pair, outputs: seq<Write>): (r: Phase)
    decreases |outputs|
  {
    if p.slot.state != SEND then Go(p)
    else if p.slot.sent >= cfg.reqLen(p.slot.sid) then Go(p.(slot := p.slot.(state := READ)))
    else if outputs == [] || outputs[0].WriteBlocks? then Stop(p)
    else if outputs[0].WriteFails? then Stop(CloseBroken(p))
    else OnSend(cfg, p.(slot := p.slot.(sent := p.slot.sent + outputs[0].n)), outputs[1..])
  }

  /** A completed response: counted, the slot served for good, and idle. */
  function Answered(p: Pair): (r: Pair) {
    var c := p.c.(responses := p.c.responses + 1);
    Pair(p.slot.(state := IDLE, served := true), if p.slot.served then c else c.(servedNow := c.servedNow + 1))
  }

  function OnRead(cfg: Config, p: Pair, inputs: seq<Read>): (res: Pair)
    decreases |inputs|
  {
    if inputs == [] || inputs[0].ReadBlocks? then p
    else if inputs[0].ReadFails? then CloseBroken(p)
    else
      var r, rest := inputs[0].consumed, inputs[1..];
      if cfg.h2 then
        if r < 0 then CloseBroken(p)
        else if p.slot.state == IDLE || r == 0 then OnRead(cfg, p, rest)
        else OnRead(cfg, Answered(p), rest)
      else if p.slot.state == IDLE then OnRead(cfg, p, rest)
      else if r < 0 then CloseBroken(p)
      else if r == 1 then Answered(p)
      else OnRead(cfg, p, rest)
  }

  function OnEvent(cfg: Config, p0: Pair, ev: Event): (r: Pair) {
    var p1 := OnConnect(cfg, p0, ev);
    if p1.Stop? then p1.p else
    var p2 := OnHandshake(cfg, p1.p, ev);
    if p2.Stop? then p2.p else
    var p3 := OnSend(cfg, p2.p, ev.outputs);
    if p3.Stop? then p3.p else
    var readable := p2.p.slot.state == SEND || ev.readable;
    if (p3.p.slot.state == READ || p3.p.slot.state == IDLE) && readable then OnRead(cfg, p3.p, ev.inputs) else p3.p
  }

  // ----- the child -----

  /** `async` counts connections that opened and then failed to connect; the source has no such counter. */
  datatype Child = Child(slots: seq<Slot>, next: nat, c: Counters, async: nat)

  datatype Attempt = NoSocket | Refused | Started

  function Ramp(ch: Child, a: Attempt): (r: Child)
    requires ch.next < |ch.slots|
  {
    var c := ch.c;
    match a
    case Started =>
      ch.(slots := ch.slots[ch.next := ch.slots[ch.next].(state := CONNECT)], next := ch.next + 1,
          c := c.(opens := c.opens + 1, connecting := c.connecting + 1))
    case _ => ch.(next := ch.next + 1, c := c.(connectFail := c.connectFail + 1))
  }

  /** An epoll event: free slots are skipped. */
  function Dispatch(cfg: Config, ch: Child, i: nat, ev: Event): (r: Child)
    requires i < |ch.slots|
  {
    if ch.slots[i].state == FREE then ch
    else
      var p := OnEvent(cfg, Pair(ch.slots[i], ch.c), ev);
      Child(ch.slots[i := p.slot], ch.next, p.c,
            ch.async + if ch.slots[i].state == CONNECT && ev.soError then 1 else 0)
  }

  /** The periodic scan at one slot: `due` is whether its ping or its deadline has come. */
  function Scan(cfg: Config, ch: Child, i: nat, due: bool, ev: Event): (r: Child)
    requires i < |ch.slots|
  {
    var s := ch.slots[i];
    if s.state == FREE || !due then ch
    else if s.state == IDLE then
      Dispatch(cfg, ch.(slots := ch.slots[i := StartSend(cfg, s)]), i, ev)
    else
      var p := Close(Pair(s, ch.c.(timeouts := ch.c.timeouts + 1)));
      ch.(slots := ch.slots[i := p.slot], c := p.c)
  }

  // ----- the accounting invariant -----

  function One(b: bool): (r: nat) {
    if b then 1 else 0
  }

  predicate IsLive(s: Slot) {
    s.state == SEND || s.state == READ || s.state == IDLE
  }

  /** How many slots are connecting, shaking hands, live, and served. */
  datatype Tally = Tally(connecting: int, handshaking: int, live: int, served: int)

  function TallyOne(s: Slot): (r: Tally) {
    Tally(One(s.state == CONNECT), One(s.state == HANDSHAKE), One(IsLive(s)), One(s.served))
  }

  function Plus(a: Tally, b: Tally): (r: Tally) {
    Tally(a.connecting + b.connecting, a.handshaking + b.handshaking, a.live + b.live, a.served + b.served)
  }

  function TallyOf(slots: seq<Slot>): (r: Tally) {
    if slots == [] then Tally(0, 0, 0, 0) else Plus(TallyOf(slots[..|slots| - 1]), TallyOne(slots[|slots| - 1]))
  }

  function Gauges(c: Counters): (r: Tally) {
    Tally(c.connecting, c.handshaking, c.live, c.servedNow)
  }

  /** Attempts that have come to an end. */
  function Ended(c: Counters): (r: int) {
    c.connectFail + c.tlsFail + c.closed + c.timeouts
  }

  /** Only live slots are served. */
  predicate SlotOk(s: Slot) {
    s.served ==> IsLive(s)
  }

  ghost predicate SlotsOk(slots: seq<Slot>, next: nat) {
    && next <= |slots|
    && (forall i :: 0 <= i < |slots| ==> SlotOk(slots[i]))
    && (forall i :: next <= i < |slots| ==> slots[i] == Empty)
  }

  ghost predicate Inv(ch: Child) {
    && SlotsOk(ch.slots, ch.next)
    && TallyOf(ch.slots) == Gauges(ch.c)
    && ch.next == ch.c.connecting + ch.c.handshaking + ch.c.live + Ended(ch.c)
    && ch.c.opens + ch.c.connectFail == ch.next + ch.async
    && ch.async <= ch.c.connectFail
  }

  lemma {:induction false} TallyUpdate(slots: seq<Slot>, i: nat, s: Slot)
    requires i < |slots|
    ensures Plus(TallyOf(slots[i := s]), TallyOne(slots[i])) == Plus(TallyOf(slots), TallyOne(s))
    decreases |slots|
  {
    hide TallyOne;
    var n, t := |slots| - 1, slots[i := s];
    assert TallyOf(t) == Plus(TallyOf(t[..n]), TallyOne(t[n]));
    assert TallyOf(slots) == Plus(TallyOf(slots[..n]), TallyOne(slots[n]));
    if i == n {
      assert t[..n] == slots[..n];
    } else {
      assert t[..n] == slots[..n][i := s];
      TallyUpdate(slots[..n], i, s);
    }
  }

  /** A step keeps the books if the gauges move with the slot and every leaver is counted once. */
  ghost predicate Balanced(p: Pair, q: Pair) {
    && (SlotOk(p.slot) ==> SlotOk(q.slot))
    && Plus(Gauges(q.c), TallyOne(p.slot)) == Plus(Gauges(p.c), TallyOne(q.slot))
    && q.c.opens == p.c.opens
    && Ended(q.c) - Ended(p.c) == One(p.slot.state != FREE) - One(q.slot.state != FREE)
  }

  lemma OnConnectBalanced(cfg: Config, p: Pair, ev: Event)
    requires SlotOk(p.slot)
    ensures Balanced(p, OnConnect(cfg, p, ev).p)
    ensures OnConnect(cfg, p, ev).p.c.connectFail - p.c.connectFail == One(p.slot.state == CONNECT && ev.soError)
    ensures p.slot.state == CONNECT && ev.soError ==> OnConnect(cfg, p, ev).Stop?
  {
  }

  lemma OnHandshakeBalanced(cfg: Config, p: Pair, ev: Event)
    requires SlotOk(p.slot)
    ensures Balanced(p, OnHandshake(cfg, p, ev).p) && OnHandshake(cfg, p, ev).p.c.connectFail == p.c.connectFail
  {
  }

  lemma {:induction false} OnSendBalanced(cfg: Config, p: Pair, outputs: seq<Write>)
    requires SlotOk(p.slot)
    ensures Balanced(p, OnSend(cfg, p, outputs).p) && OnSend(cfg, p, outputs).p.c.connectFail == p.c.connectFail
    decreases |outputs|
  {
    if p.slot.state == SEND && p.slot.sent < cfg.reqLen(p.slot.sid) && outputs != [] && outputs[0].Wrote? {
      OnSendBalanced(cfg, p.(slot := p.slot.(sent := p.slot.sent + outputs[0].n)), outputs[1..]);
    }
  }

  lemma {:induction false} OnReadBalanced(cfg: Config, p: Pair, inputs: seq<Read>)
    requires SlotOk(p.slot) && IsLive(p.slot)
    ensures Balanced(p, OnRead(cfg, p, inputs)) && OnRead(cfg, p, inputs).c.connectFail == p.c.connectFail
    decreases |inputs|
  {
    if inputs != [] && inputs[0].Got? {
      OnReadBalanced(cfg, p, inputs[1..]);
      OnReadBalanced(cfg, Answered(p), inputs[1..]);
    }
  }

  lemma BalancedSame(p: Pair)
    ensures Balanced(p, p)
  {
  }

  lemma BalancedTwice(p: Pair, q: Pair, r: Pair)
    requires SlotOk(p.slot) && Balanced(p, q) && (SlotOk(q.slot) ==> Balanced(q, r))
    ensures Balanced(p, r) && SlotOk(q.slot) && SlotOk(r.slot)
  {
    hide SlotOk, TallyOne;
  }

  lemma OnEventBalanced(cfg: Config, p: Pair, ev: Event)
    requires SlotOk(p.slot)
    ensures Balanced(p, OnEvent(cfg, p, ev))
    ensures OnEvent(cfg, p, ev).c.connectFail - p.c.connectFail == One(p.slot.state == CONNECT && ev.soError)
  {
    hide OnConnect, OnHandshake, OnSend, OnRead, Balanced, SlotOk;
    OnConnectBalanced(cfg, p, ev);
    var p1 := OnConnect(cfg, p, ev).p;
    BalancedTwice(p, p1, p1) by { BalancedSame(p1); }
    OnHandshakeBalanced(cfg, p1, ev);
    var p2 := OnHandshake(cfg, p1, ev).p;
    BalancedTwice(p, p1, p2);
    OnSendBalanced(cfg, p2, ev.outputs);
    var p3 := OnSend(cfg, p2, ev.outputs).p;
    BalancedTwice(p, p2, p3);
    if p3.slot.state == READ || p3.slot.state == IDLE {
      OnReadBalanced(cfg, p3, ev.inputs);
      BalancedTwice(p, p3, OnRead(cfg, p3, ev.inputs));
    }
  }

  /** A live slot leaves an event either live or counted under closed. */
  ghost predicate OnlyCloses(p: Pair, q: Pair) {
    && q.c.timeouts == p.c.timeouts && q.c.tlsFail == p.c.tlsFail && q.c.connectFail == p.c.connectFail
    && (IsLive(q.slot) || q.slot == Empty)
    && q.c.closed - p.c.closed == One(q.slot == Empty)
  }

  lemma {:induction false} OnSendOnlyCloses(cfg: Config, p: Pair, outputs: seq<Write>)
    requires IsLive(p.slot)
    ensures OnlyCloses(p, OnSend(cfg, p, outputs).p)
    ensures OnSend(cfg, p, outputs).Go? ==> OnSend(cfg, p, outputs).p.c == p.c
    decreases |outputs|
  {
    if p.slot.state == SEND && p.slot.sent < cfg.reqLen(p.slot.sid) && outputs != [] && outputs[0].Wrote? {
      OnSendOnlyCloses(cfg, p.(slot := p.slot.(sent := p.slot.sent + outputs[0].n)), outputs[1..]);
    }
  }

  lemma {:induction false} OnReadOnlyCloses(cfg: Config, p: Pair, inputs: seq<Read>)
    requires IsLive(p.slot)
    ensures OnlyCloses(p, OnRead(cfg, p, inputs))
    decreases |inputs|
  {
    if inputs != [] && inputs[0].Got? {
      OnReadOnlyCloses(cfg, p, inputs[1..]);
      OnReadOnlyCloses(cfg, Answered(p), inputs[1..]);
    }
  }

  /** Every ending is counted under its own cause, and only the scan counts timeouts. */
  lemma EventCauses(cfg: Config, p: Pair, ev: Event)
    requires SlotOk(p.slot)
    ensures var q := OnEvent(cfg, p, ev);
      var refused := p.slot.state == CONNECT && ev.soError;
      var shook := p.slot.state == HANDSHAKE || (p.slot.state == CONNECT && !ev.soError && cfg.tls);
      var left := p.slot.state != FREE && q.slot.state == FREE;
      && q.c.timeouts == p.c.timeouts
      && q.c.connectFail - p.c.connectFail == One(refused)
      && q.c.tlsFail - p.c.tlsFail == One(shook && ev.handshake.Failed?)
      && q.c.closed - p.c.closed == One(left && !refused && !(shook && ev.handshake.Failed?))
  {
    hide OnSend, OnRead;
    var p1 := OnConnect(cfg, p, ev);
    var p2 := OnHandshake(cfg, p1.p, ev);
    if p1.Go? && p2.Go? && p2.p.slot.state != FREE {
      OnSendOnlyCloses(cfg, p2.p, ev.outputs);
      var p3 := OnSend(cfg, p2.p, ev.outputs).p;
      if IsLive(p3.slot) {
        OnReadOnlyCloses(cfg, p3, ev.inputs);
      }
    } else if p1.Go? && p2.Go? {
      NotSending(cfg, p2.p, ev.outputs);
    }
  }

  lemma RampKeepsInv(ch: Child, a: Attempt)
    requires Inv(ch) && ch.next < |ch.slots|
    ensures Inv(Ramp(ch, a))
  {
    if a.Started? {
      TallyUpdate(ch.slots, ch.next, ch.slots[ch.next].(state := CONNECT));
    }
  }

  lemma SlotsOkUpdate(slots: seq<Slot>, next: nat, i: nat, s: Slot)
    requires SlotsOk(slots, next) && i < |slots| && SlotOk(s) && slots[i] != Empty
    ensures SlotsOk(slots[i := s], next)
  {
    hide SlotOk;
  }

  lemma SlotAt(slots: seq<Slot>, next: nat, i: nat)
    requires SlotsOk(slots, next) && i < |slots|
    ensures SlotOk(slots[i]) && next <= |slots|
  {
  }

  lemma DispatchKeepsInv(cfg: Config, ch: Child, i: nat, ev: Event)
    requires Inv(ch) && i < |ch.slots|
    ensures Inv(Dispatch(cfg, ch, i, ev))
  {
    hide OnEvent, TallyOf, SlotsOk, SlotOk;
    if ch.slots[i].state != FREE {
      var p := Pair(ch.slots[i], ch.c);
      SlotAt(ch.slots, ch.next, i);
      OnEventBalanced(cfg, p, ev);
      TallyUpdate(ch.slots, i, OnEvent(cfg, p, ev).slot);
      SlotsOkUpdate(ch.slots, ch.next, i, OnEvent(cfg, p, ev).slot);
    }
  }

  lemma SlotKinds(cfg: Config, s: Slot)
    ensures SlotOk(Empty) && (SlotOk(s) ==> SlotOk(StartSend(cfg, s)))
  {
  }

  lemma ScanKeepsInv(cfg: Config, ch: Child, i: nat, due: bool, ev: Event)
    requires Inv(ch) && i < |ch.slots|
    ensures Inv(Scan(cfg, ch, i, due, ev))
  {
    hide Dispatch, TallyOf, SlotsOk, SlotOk;
    var s := ch.slots[i];
    SlotAt(ch.slots, ch.next, i);
    SlotKinds(cfg, s);
    if s.state == IDLE && due {
      SlotsOkUpdate(ch.slots, ch.next, i, StartSend(cfg, s));
      TallyUpdate(ch.slots, i, StartSend(cfg, s));
      DispatchKeepsInv(cfg, ch.(slots := ch.slots[i := StartSend(cfg, s)]), i, ev);
    } else if s.state != FREE && due {
      TallyUpdate(ch.slots, i, Empty);
      SlotsOkUpdate(ch.slots, ch.next, i, Empty);
    }
  }

  // ----- whole runs -----

  datatype Action =
    | TryNext(a: Attempt)
    | Deliver(i: nat, ev: Event)
    | Tick(due: seq<bool>, evs: seq<Event>)

  /** The scan over slots k, k + 1, ... below next. */
  function TickFrom(cfg: Config, ch: Child, k: nat, due: seq<bool>, evs: seq<Event>): (r: Child)
    requires ch.next <= |ch.slots| && |due| == |evs| >= ch.next
    ensures |r.slots| == |ch.slots| && r.next == ch.next
    decreases ch.next - k
  {
    hide OnEvent;
    if k >= ch.next then ch else TickFrom(cfg, Scan(cfg, ch, k, due[k], evs[k]), k + 1, due, evs)
  }

  function Act(cfg: Config, ch: Child, act: Action): (r: Child)
    requires ch.next <= |ch.slots|
    ensures |r.slots| == |ch.slots| && r.next <= |r.slots|
  {
    hide OnEvent;
    match act
    case TryNext(a) => if ch.next < |ch.slots| then Ramp(ch, a) else ch
    case Deliver(i, ev) => if i < |ch.slots| then Dispatch(cfg, ch, i, ev) else ch
    case Tick(due, evs) => if |due| == |evs| >= ch.next then TickFrom(cfg, ch, 0, due, evs) else ch
  }

  function Run(cfg: Config, ch: Child, acts: seq<Action>): (r: Child)
    requires ch.next <= |ch.slots|
    ensures |r.slots| == |ch.slots| && r.next <= |r.slots|
    decreases |acts|
  {
    if acts == [] then ch else Run(cfg, Act(cfg, ch, acts[0]), acts[1..])
  }

  function Empties(count: nat): (s: seq<Slot>)
    ensures |s| == count && forall i :: 0 <= i < count ==> s[i] == Empty
  {
    seq(count, i => Empty)
  }

  function Init(count: nat): (r: Child) {
    Child(Empties(count), 0, Zero, 0)
  }

  lemma {:induction false} TallyEmpty(slots: seq<Slot>)
    requires forall i :: 0 <= i < |slots| ==> slots[i] == Empty
    ensures TallyOf(slots) == Tally(0, 0, 0, 0)
    decreases |slots|
  {
    if slots != [] {
      TallyEmpty(slots[..|slots| - 1]);
    }
  }

  lemma {:induction false} TickKeepsInv(cfg: Config, ch: Child, k: nat, due: seq<bool>, evs: seq<Event>)
    requires Inv(ch) && |due| == |evs| >= ch.next
    ensures Inv(TickFrom(cfg, ch, k, due, evs))
    decreases ch.next - k
  {
    hide Inv, OnEvent;
    if k < ch.next {
      InvBounds(ch);
      ScanKeepsInv(cfg, ch, k, due[k], evs[k]);
      InvBounds(Scan(cfg, ch, k, due[k], evs[k]));
      TickKeepsInv(cfg, Scan(cfg, ch, k, due[k], evs[k]), k + 1, due, evs);
    }
  }

  lemma InvBounds(ch: Child)
    requires Inv(ch)
    ensures ch.next <= |ch.slots|
  {
  }

  lemma ActKeepsInv(cfg: Config, ch: Child, act: Action)
    requires Inv(ch) && ch.next <= |ch.slots|
    ensures Inv(Act(cfg, ch, act))
  {
    hide Inv, Ramp, Dispatch, TickFrom;
    match act
    case TryNext(a) => if ch.next < |ch.slots| { RampKeepsInv(ch, a); }
    case Deliver(i, ev) => if i < |ch.slots| { DispatchKeepsInv(cfg, ch, i, ev); }
    case Tick(due, evs) => if |due| == |evs| >= ch.next { TickKeepsInv(cfg, ch, 0, due, evs); }
  }

  lemma {:induction false} RunKeepsInv(cfg: Config, ch: Child, acts: seq<Action>)
    requires Inv(ch)
    ensures Inv(Run(cfg, ch, acts))
    decreases |acts|
  {
    hide Inv, Act;
    InvBounds(ch);
    if acts != [] {
      ActKeepsInv(cfg, ch, acts[0]);
      RunKeepsInv(cfg, Act(cfg, ch, acts[0]), acts[1..]);
    }
  }

  lemma InitInv(count: nat)
    ensures Inv(Init(count))
  {
    hide *;
    InitParts(count);
    EmptiesOk(count);
    TallyEmpty(Empties(count));
    ZeroBooks();
    InvFromParts(Init(count));
  }

  lemma InitParts(count: nat)
    ensures Init(count) == Child(Empties(count), 0, Zero, 0)
    ensures forall i :: 0 <= i < |Empties(count)| ==> Empties(count)[i] == Empty
  {
  }

  lemma ZeroBooks()
    ensures Gauges(Zero) == Tally(0, 0, 0, 0) && Ended(Zero) == 0
    ensures Zero.connecting == Zero.handshaking == Zero.live == Zero.opens == Zero.connectFail == 0
  {
  }

  lemma InvFromParts(ch: Child)
    requires SlotsOk(ch.slots, ch.next) && TallyOf(ch.slots) == Gauges(ch.c)
    requires ch.next == ch.c.connecting + ch.c.handshaking + ch.c.live + Ended(ch.c)
    requires ch.c.opens + ch.c.connectFail == ch.next + ch.async && ch.async <= ch.c.connectFail
    ensures Inv(ch)
  {
  }

  lemma EmptiesOk(count: nat)
    ensures SlotsOk(Empties(count), 0)
  {
  }

  lemma {:induction false} TallyNonNegative(slots: seq<Slot>)
    requires forall i :: 0 <= i < |slots| ==> SlotOk(slots[i])
    ensures var t := TallyOf(slots);
      t.connecting >= 0 && t.handshaking >= 0 && 0 <= t.served <= t.live
    decreases |slots|
  {
    if slots != [] {
      TallyNonNegative(slots[..|slots| - 1]);
      assert SlotOk(slots[|slots| - 1]);
    }
  }

  /**
   * Conservation over every run of a child: the gauges are the true counts, no counter ever
   * wraps below zero, and every attempt is in exactly one place.
   */
  lemma BooksBalance(cfg: Config, count: nat, acts: seq<Action>)
    ensures var ch := Run(cfg, Init(count), acts);
      && Gauges(ch.c) == TallyOf(ch.slots)
      && ch.c.connecting >= 0 && ch.c.handshaking >= 0 && 0 <= ch.c.servedNow <= ch.c.live
      && ch.next == ch.c.connecting + ch.c.handshaking + ch.c.live
                    + ch.c.connectFail + ch.c.tlsFail + ch.c.closed + ch.c.timeouts
  {
    hide Run, Init;
    InitInv(count);
    RunKeepsInv(cfg, Init(count), acts);
    TallyNonNegative(Run(cfg, Init(count), acts).slots);
  }

  /**
   * The parent stops its ramp when opened + connect_fail reaches the total. In a child that
   * sum equals the attempts made exactly when no opened connection has failed to connect.
   */
  lemma RampTestExactIffNoAsyncFailure(cfg: Config, count: nat, acts: seq<Action>)
    ensures var ch := Run(cfg, Init(count), acts);
      && ch.c.opens + ch.c.connectFail >= ch.next
      && (ch.c.opens + ch.c.connectFail == ch.next <==> ch.async == 0)
  {
    hide Run, Init;
    InitInv(count);
    RunKeepsInv(cfg, Init(count), acts);
  }

  /** So with two slots, one refused connection already looks like a finished ramp. */
  lemma RampEndsEarly(cfg: Config)
    ensures var refused := Event(true, Again, [], false, []);
      var ch := Run(cfg, Init(2), [TryNext(Started), Deliver(0, refused)]);
      ch.next == 1 && ch.c.opens + ch.c.connectFail == 2
  {
    var refused := Event(true, Again, [], false, []);
    var one := Act(cfg, Init(2), TryNext(Started));
    assert one.slots[0] == Slot(CONNECT, false, 0, 0, 0);
    var two := Act(cfg, one, Deliver(0, refused));
    assert two.c.connectFail == 1 && two.c.opens == 1;
    RunTwo(cfg, Init(2), TryNext(Started), Deliver(0, refused));
  }

  lemma RunTwo(cfg: Config, ch: Child, a: Action, b: Action)
    requires ch.next <= |ch.slots|
    ensures Run(cfg, ch, [a, b]) == Act(cfg, Act(cfg, ch, a), b)
  {
    hide Act;
    var mid := Act(cfg, ch, a);
    assert [a, b][1..] == [b] && [b][1..] == [];
    assert Run(cfg, mid, [b]) == Run(cfg, Act(cfg, mid, b), []);
  }

  // ----- the transitions, one by one -----

  /** What leaving takes off the gauges: the one of the slot's state, and the served one if it was served. */
  function WithoutSlot(c: Counters, s: Slot): (r: Counters) {
    c.(connecting := c.connecting - (if s.state == CONNECT then 1 else 0),
       handshaking := c.handshaking - (if s.state == HANDSHAKE then 1 else 0),
       live := c.live - (if s.state == SEND || s.state == READ || s.state == IDLE then 1 else 0),
       servedNow := c.servedNow - (if s.served then 1 else 0))
  }

  lemma LeavingTakesOff(p: Pair)
    ensures Close(p) == Pair(Slot(FREE, false, 0, 0, 0), WithoutSlot(p.c, p.slot))
  {
  }

  /** A connecting slot: refused, or on to the handshake over TLS, or else to sending. */
  lemma ConnectingSlot(cfg: Config, p: Pair, ev: Event)
    requires p.slot.state == CONNECT && !p.slot.served
    ensures var q := OnEvent(cfg, p, ev);
      && (ev.soError ==>
            q == Pair(Empty, p.c.(connecting := p.c.connecting - 1, connectFail := p.c.connectFail + 1)))
      && (!ev.soError && !cfg.tls ==>
            && q.slot.state == SEND && q.slot.sent == 0 && !q.slot.served
            && q.c == p.c.(connecting := p.c.connecting - 1, live := p.c.live + 1))
      && (!ev.soError && cfg.tls && ev.handshake.Again? ==>
            && q.slot == p.slot.(state := HANDSHAKE)
            && q.c == p.c.(connecting := p.c.connecting - 1, handshaking := p.c.handshaking + 1))
      && (!ev.soError && cfg.tls && ev.handshake.Failed? ==>
            q == Pair(Empty, p.c.(connecting := p.c.connecting - 1, tlsFail := p.c.tlsFail + 1)))
  {
    hide OnSend, OnRead;
  }

  /** A handshaking slot: as it was, failed, or on to sending, where it stays if nothing can be written. */
  lemma HandshakingSlot(cfg: Config, p: Pair, ev: Event)
    requires p.slot.state == HANDSHAKE && !p.slot.served
    ensures var q := OnEvent(cfg, p, ev);
      && (ev.handshake.Again? ==> q == p)
      && (ev.handshake.Failed? ==>
            q == Pair(Empty, p.c.(handshaking := p.c.handshaking - 1, tlsFail := p.c.tlsFail + 1)))
      && (ev.handshake.Done? && ev.outputs == [] && cfg.reqLen(StartSend(cfg, p.slot).sid) > 0 ==>
            && q.slot.state == SEND && q.slot.sent == 0 && !q.slot.served
            && q.c == p.c.(handshaking := p.c.handshaking - 1, live := p.c.live + 1))
  {
    hide OnRead;
  }

  lemma SentAll(cfg: Config, p: Pair)
    requires p.slot.state == SEND && p.slot.sent == cfg.reqLen(p.slot.sid)
    ensures OnSend(cfg, p, []) == Go(p.(slot := p.slot.(state := READ)))
  {
  }

  lemma NoResult(cfg: Config, p: Pair)
    ensures OnRead(cfg, p, []) == p && OnRead(cfg, p, [ReadFails]) == CloseBroken(p)
  {
  }

  lemma OneResult(cfg: Config, p: Pair, r: int)
    ensures OnRead(cfg, p, [Got(r)]) ==
      if p.slot.state == IDLE && (!cfg.h2 || r >= 0) then p
      else if r < 0 then CloseBroken(p)
      else if r == 0 || (r != 1 && !cfg.h2) then p
      else Answered(p)
  {
    var one := [Got(r)];
    assert one[1..] == [];
    NoResult(cfg, p);
    NoResult(cfg, Answered(p));
  }

  /** A sending slot: nothing written, broken, or all written and on to reading. */
  lemma SendingSlot(cfg: Config, p: Pair, ev: Event)
    requires p.slot.state == SEND && p.slot.sent < cfg.reqLen(p.slot.sid)
    ensures var q := OnEvent(cfg, p, ev);
      && (ev.outputs == [] || ev.outputs[0].WriteBlocks? ==> q == p)
      && (ev.outputs != [] && ev.outputs[0].WriteFails? ==>
            q == Pair(Empty, p.c.(closed := p.c.closed + 1, live := p.c.live - 1,
                                  servedNow := p.c.servedNow - if p.slot.served then 1 else 0)))
      && (ev.outputs == [Wrote(cfg.reqLen(p.slot.sid) - p.slot.sent)] && ev.inputs == [] ==>
            q == p.(slot := p.slot.(state := READ, sent := cfg.reqLen(p.slot.sid))))
  {
    var all := p.(slot := p.slot.(sent := cfg.reqLen(p.slot.sid)));
    SentAll(cfg, all);
    if ev.outputs == [Wrote(cfg.reqLen(p.slot.sid) - p.slot.sent)] {
      assert ev.outputs[1..] == [];
      assert OnSend(cfg, p, ev.outputs) == OnSend(cfg, all, []);
    }
  }

  /** A reading slot: not readable, blocked, broken, or its response completed. */
  lemma ReadingSlot(cfg: Config, p: Pair, ev: Event)
    requires p.slot.state == READ
    ensures var q := OnEvent(cfg, p, ev);
      && (!ev.readable || ev.inputs == [] ==> q == p)
      && (ev.readable && (ev.inputs == [ReadFails] || ev.inputs == [Got(-1)]) ==>
            q == Pair(Empty, p.c.(closed := p.c.closed + 1, live := p.c.live - 1,
                                  servedNow := p.c.servedNow - if p.slot.served then 1 else 0)))
      && (ev.readable && ev.inputs == [Got(0)] ==> q == p)
      && (ev.readable && ev.inputs == [Got(1)] ==>
            q == Pair(p.slot.(state := IDLE, served := true),
                      p.c.(responses := p.c.responses + 1,
                           servedNow := p.c.servedNow + if p.slot.served then 0 else 1)))
  {
    hide OnRead;
    OneResult(cfg, p, -1);
    OneResult(cfg, p, 0);
    OneResult(cfg, p, 1);
    NoResult(cfg, p);
  }

  /** An idle slot: only a failed read, or over HTTP/2 a reader that gives up, changes it. */
  lemma IdleSlot(cfg: Config, p: Pair, ev: Event)
    requires p.slot.state == IDLE
    ensures var q := OnEvent(cfg, p, ev);
      && (!ev.readable || ev.inputs == [] ==> q == p)
      && (ev.readable && (ev.inputs == [ReadFails] || (cfg.h2 && ev.inputs == [Got(-1)])) ==>
            q == Pair(Empty, p.c.(closed := p.c.closed + 1, live := p.c.live - 1,
                                  servedNow := p.c.servedNow - if p.slot.served then 1 else 0)))
      && (ev.readable && (ev.inputs == [Got(0)] || ev.inputs == [Got(1)]) ==> q == p)
  {
    hide OnRead;
    OneResult(cfg, p, -1);
    OneResult(cfg, p, 0);
    OneResult(cfg, p, 1);
    NoResult(cfg, p);
  }

  /** An attempt: a socket or a connect that fails is counted there, a started one as open and connecting. */
  lemma AttemptIs(ch: Child, a: Attempt)
    requires ch.next < |ch.slots| && ch.slots[ch.next] == Empty
    ensures var t := Ramp(ch, a);
      && t.next == ch.next + 1 && t.async == ch.async
      && (a.Started? ==>
            && t.slots == ch.slots[ch.next := Slot(CONNECT, false, 0, 0, 0)]
            && t.c == ch.c.(opens := ch.c.opens + 1, connecting := ch.c.connecting + 1))
      && (!a.Started? ==> t.slots == ch.slots && t.c == ch.c.(connectFail := ch.c.connectFail + 1))
  {
  }

  /** The scan: a slot past its deadline is closed and counted as timed out; an idle one sends again. */
  lemma ScanIs(cfg: Config, ch: Child, i: nat, due: bool, ev: Event)
    requires i < |ch.slots|
    ensures var s, t := ch.slots[i], Scan(cfg, ch, i, due, ev);
      && (!due || s.state == FREE ==> t == ch)
      && (due && s.state != FREE && s.state != IDLE ==>
            && t.slots == ch.slots[i := Empty] && t.next == ch.next
            && t.c == WithoutSlot(ch.c.(timeouts := ch.c.timeouts + 1), s))
      && (due && s.state == IDLE && ev.outputs == [] && cfg.reqLen(StartSend(cfg, s).sid) > 0 ==>
            && t.slots[i].state == SEND && t.slots[i].sent == 0 && t.slots[i].served == s.served && t.c == ch.c)
  {
    hide OnRead;
  }

  // ----- the child process -----

  class Process {
    const cfg: Config
    const slots: array<Slot>
    var next: nat
    var st: Counters
    ghost var async: nat

    ghost function View(): (r: Child)
      reads this, slots
    {
      Child(slots[..], next, st, async)
    }

    ghost predicate Valid()
      reads this, slots
    {
      Inv(View())
    }

    constructor (cfg: Config, count: nat)
      ensures Valid() && View() == Init(count) && fresh(slots) && this.cfg == cfg
    {
      this.cfg := cfg;
      slots := new Slot[count](i => Empty);
      next := 0;
      st := Zero;
      async := 0;
      new;
      hide Inv, TallyOf;
      InitInv(count);
      InitParts(count);
      assert slots[..] == Empties(count);
    }

    method CloseSlot(i: nat)
      requires i < slots.Length
      modifies this`st, slots
      ensures slots[..] == old(slots[..])[i := Empty] && Pair(slots[i], st) == Close(old(Pair(slots[i], st)))
    {
      var s := slots[i];
      if s.state == CONNECT {
        st := st.(connecting := st.connecting - 1);
      } else if s.state == HANDSHAKE {
        st := st.(handshaking := st.handshaking - 1);
      } else if s.state != FREE {
        st := st.(live := st.live - 1);
      }
      if s.served {
        st := st.(servedNow := st.servedNow - 1);
      }
      slots[i] := Empty;
    }

    /** The write loop of ST_SEND; true when the whole request is out. */
    method WriteAll(i: nat, outputs: seq<Write>) returns (go: bool)
      requires i < slots.Length && slots[i].state == SEND
      modifies this`st, slots
      ensures var p := OnSend(cfg, old(Pair(slots[i], st)), outputs);
        slots[..] == old(slots[..])[i := p.p.slot] && st == p.p.c && go == p.Go?
    {
      hide Close;
      var k := 0;
      while slots[i].sent < cfg.reqLen(slots[i].sid)
        invariant k <= |outputs| && st == old(st) && slots[i].state == SEND
        invariant slots[..] == old(slots[..])[i := slots[i]]
        invariant OnSend(cfg, Pair(slots[i], st), outputs[k..]) == OnSend(cfg, old(Pair(slots[i], st)), outputs)
        decreases |outputs| - k
      {
        if k == |outputs| || outputs[k].WriteBlocks? {
          return false;
        }
        if outputs[k].WriteFails? {
          st := st.(closed := st.closed + 1);
          CloseSlot(i);
          return false;
        }
        slots[i] := slots[i].(sent := slots[i].sent + outputs[k].n);
        k := k + 1;
      }
      slots[i] := slots[i].(state := READ);
      return true;
    }

    /** Counts a completed response and idles the slot. */
    method Answer(i: nat)
      requires i < slots.Length
      modifies this`st, slots
      ensures slots[..] == old(slots[..])[i := slots[i]] && Pair(slots[i], st) == Answered(old(Pair(slots[i], st)))
    {
      st := st.(responses := st.responses + 1);
      if !slots[i].served {
        slots[i] := slots[i].(served := true);
        st := st.(servedNow := st.servedNow + 1);
      }
      slots[i] := slots[i].(state := IDLE);
    }

    /** The read loop of ST_READ and ST_IDLE. */
    method ReadAll(i: nat, inputs: seq<Read>)
      requires i < slots.Length
      modifies this`st, slots
      ensures slots[..] == old(slots[..])[i := slots[i]]
      ensures Pair(slots[i], st) == OnRead(cfg, old(Pair(slots[i], st)), inputs)
    {
      hide Close, Answered;
      var k := 0;
      while k < |inputs|
        invariant k <= |inputs| && slots[..] == old(slots[..])[i := slots[i]]
        invariant OnRead(cfg, Pair(slots[i], st), inputs[k..]) == OnRead(cfg, old(Pair(slots[i], st)), inputs)
      {
        assert inputs[k..][1..] == inputs[k + 1..];
        var r := inputs[k];
        k := k + 1;
        if r.ReadBlocks? {
          return;
        }
        if cfg.h2 && r.Got? {
          if r.consumed < 0 {
            st := st.(closed := st.closed + 1);
            CloseSlot(i);
            return;
          }
          if slots[i].state == IDLE || r.consumed == 0 {
            continue;
          }
          Answer(i);
          continue;
        }
        if r.ReadFails? || slots[i].state == IDLE {
          if r.Got? {
            continue;
          }
          st := st.(closed := st.closed + 1);
          CloseSlot(i);
          return;
        }
        if r.consumed < 0 {
          st := st.(closed := st.closed + 1);
          CloseSlot(i);
          return;
        }
        if r.consumed == 1 {
          Answer(i);
          return;
        }
      }
    }

    /** on_event, given what the calls it makes return. */
    method OnEpoll(i: nat, ev: Event)
      requires i < slots.Length
      modifies this, slots
      ensures next == old(next)
      ensures slots[..] == old(slots[..])[i := slots[i]]
      ensures Pair(slots[i], st) == OnEvent(cfg, old(Pair(slots[i], st)), ev)
      ensures async == old(async) + if old(slots[i]).state == CONNECT && ev.soError then 1 else 0
    {
      hide Close, OnSend, OnRead;
      var readable := ev.readable;
      if slots[i].state == CONNECT {
        if ev.soError {
          async := async + 1;
          st := st.(connectFail := st.connectFail + 1);
          CloseSlot(i);
          return;
        }
        st := st.(connecting := st.connecting - 1);
        if cfg.tls {
          slots[i] := slots[i].(state := HANDSHAKE);
          st := st.(handshaking := st.handshaking + 1);
        } else {
          st := st.(live := st.live + 1);
          slots[i] := StartSend(cfg, slots[i]);
          return;
        }
      }
      if slots[i].state == HANDSHAKE {
        if ev.handshake.Done? {
          st := st.(handshaking := st.handshaking - 1);
          st := st.(live := st.live + 1);
          slots[i] := StartSend(cfg, slots[i]);
        } else {
          if ev.handshake.Failed? {
            st := st.(tlsFail := st.tlsFail + 1);
            CloseSlot(i);
          }
          return;
        }
      }
      if slots[i].state == SEND {
        var go := WriteAll(i, ev.outputs);
        if !go {
          return;
        }
        readable := true;
      } else {
        NotSending(cfg, Pair(slots[i], st), ev.outputs);
      }
      if slots[i].state == READ || slots[i].state == IDLE {
        if !readable {
          return;
        }
        ReadAll(i, ev.inputs);
      }
    }

    /** One turn of the ramp loop. */
    method RampOne(a: Attempt)
      requires Valid() && next < slots.Length
      modifies this, slots
      ensures Valid() && View() == Ramp(old(View()), a)
    {
      RampKeepsInv(View(), a);
      if a.Started? {
        slots[next] := slots[next].(state := CONNECT);
        st := st.(opens := st.opens + 1);
        st := st.(connecting := st.connecting + 1);
      } else {
        st := st.(connectFail := st.connectFail + 1);
      }
      next := next + 1;
    }

    method DispatchOne(i: nat, ev: Event)
      requires Valid() && i < slots.Length
      modifies this, slots
      ensures Valid() && View() == Dispatch(cfg, old(View()), i, ev)
    {
      hide OnEvent, Inv;
      DispatchKeepsInv(cfg, View(), i, ev);
      if slots[i].state == FREE {
        return;
      }
      OnEpoll(i, ev);
    }

    /** The once-a-second pass over the slots in use. */
    method ScanAll(due: seq<bool>, evs: seq<Event>)
      requires Valid() && |due| == |evs| >= next
      modifies this, slots
      ensures Valid() && View() == TickFrom(cfg, old(View()), 0, due, evs)
    {
      hide OnEvent, Dispatch, Inv, Close;
      InvBounds(View());
      for i := 0 to next
        invariant Valid() && next == old(next)
        invariant TickFrom(cfg, View(), i, due, evs) == TickFrom(cfg, old(View()), 0, due, evs)
      {
        ghost var before := View();
        ScanKeepsInv(cfg, before, i, due[i], evs[i]);
        if slots[i].state != FREE && due[i] {
          if slots[i].state == IDLE {
            slots[i] := StartSend(cfg, slots[i]);
            OnEpoll(i, evs[i]);
            ScanRestart(cfg, before, i, evs[i]);
          } else {
            st := st.(timeouts := st.timeouts + 1);
            CloseSlot(i);
          }
        }
        assert View() == Scan(cfg, before, i, due[i], evs[i]);
      }
    }
  }

  lemma NotSending(cfg: Config, p: Pair, outputs: seq<Write>)
    requires p.slot.state != SEND
    ensures OnSend(cfg, p, outputs) == Go(p)
  {
  }

  /** A due ping is a send and the event that follows it at once. */
  lemma ScanRestart(cfg: Config, ch: Child, i: nat, ev: Event)
    requires i < |ch.slots| && ch.slots[i].state == IDLE
    ensures var s := StartSend(cfg, ch.slots[i]);
      var p := OnEvent(cfg, Pair(s, ch.c), ev);
      Scan(cfg, ch, i, true, ev) == Child(ch.slots[i := p.slot], ch.next, p.c, ch.async)
  {
    hide OnEvent;
    var s := StartSend(cfg, ch.slots[i]);
    assert ch.slots[i := s][i := OnEvent(cfg, Pair(s, ch.c), ev).slot] == ch.slots[i := OnEvent(cfg, Pair(s, ch.c), ev).slot];
  }
}
