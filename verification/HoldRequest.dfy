/**
 * The HTTP/2 request bytes of tools/connhold.c (build_req) and how partial writes resume them:
 * the bytes are rebuilt at every attempt and the slot only remembers how many are out.
 */
module HoldRequest {
  import H = HoldChild
  import F = Http2Reader
  import opened Common

  /** PRI * HTTP/2.0 CR LF CR LF SM CR LF CR LF */
  const Preface: seq<byte> :=
    [0x50, 0x52, 0x49, 0x20, 0x2A, 0x20, 0x48, 0x54, 0x54, 0x50, 0x2F, 0x32,
     0x2E, 0x30, 0x0D, 0x0A, 0x0D, 0x0A, 0x53, 0x4D, 0x0D, 0x0A, 0x0D, 0x0A]

  const EmptySettings: seq<byte> := [0, 0, 0, F.SETTINGS, 0, 0, 0, 0, 0]

  const Localhost: seq<byte> := [0x6C, 0x6F, 0x63, 0x61, 0x6C, 0x68, 0x6F, 0x73, 0x74]

  /** The buffers hold a path this long. */
  const MAX_PATH: nat := 145

  const BLOCK_ROOM: nat := 160

  // ----- building -----

  function Block(path: seq<byte>): (block: seq<byte>) {
    [0x82, 0x87, 0x04, |path| % 256] + path + [0x01, 9] + Localhost
  }

  /** What a request is: on stream 1 the preface and empty SETTINGS, then one HEADERS frame. */
  function Request(sid: nat, path: seq<byte>): (r: seq<byte>)
    requires |path| <= MAX_PATH && sid < 0x8000_0000
  {
    (if sid == 1 then Preface + F.Encode(F.Frame(F.SETTINGS, 0, false, 0, [])) else []) +
    Headers(sid, path)
  }

  /** The block fits the 160 bytes the code has for it, and then the request fits its 1024, up to 145 bytes of path. */
  lemma BlockFitsIffPathShort(path: seq<byte>)
    ensures |Block(path)| <= BLOCK_ROOM <==> |path| <= MAX_PATH
    ensures forall sid: nat :: sid < 0x8000_0000 && |path| <= MAX_PATH ==> |Request(sid, path)| <= 57 + MAX_PATH < 1024
  {
    BlockBytes(path);
    FirstBytes();
    forall sid: nat | sid < 0x8000_0000 && |path| <= MAX_PATH
      ensures |Request(sid, path)| <= 57 + MAX_PATH
    {
      HeadersBytes(sid, Block(path));
    }
  }

  method Put(out: array<byte>, n: nat, bytes: seq<byte>) returns (n': nat)
    requires n + |bytes| <= out.Length
    modifies out
    ensures n' == n + |bytes| && out[..n'] == old(out[..n]) + bytes
  {
    for i := 0 to |bytes|
      invariant out[..n + i] == old(out[..n]) + bytes[..i]
    {
      out[n + i] := bytes[i];
    }
    n' := n + |bytes|;
  }

  method PutBlock(path: seq<byte>, block: array<byte>) returns (b: nat)
    requires |path| <= MAX_PATH && block.Length == BLOCK_ROOM
    modifies block
    ensures b <= BLOCK_ROOM && block[..b] == Block(path)
  {
    b := Put(block, 0, [0x82, 0x87, 0x04]);
    b := Put(block, b, [|path|]);
    b := Put(block, b, path);
    b := Put(block, b, [0x01, 9]);
    b := Put(block, b, Localhost);
  }

  function Headers(sid: nat, path: seq<byte>): (r: seq<byte>)
    requires |path| <= MAX_PATH && sid < 0x8000_0000
  {
    F.Encode(F.Frame(F.HEADERS, 5, false, sid, Block(path)))
  }

  method PutHeaders(sid: nat, path: seq<byte>, out: array<byte>, n: nat) returns (n': nat)
    requires sid < 0x8000_0000 && |path| <= MAX_PATH && n <= 33 && out.Length == 1024
    modifies out
    ensures n' <= 1024 && out[..n'] == old(out[..n]) + Headers(sid, path)
  {
    hide Block, F.Encode;
    BlockBytes(path);
    var block := new byte[BLOCK_ROOM];
    var b := PutBlock(path, block);
    var fh: seq<byte> := [0, b / 256 % 256, b % 256, 1, 5,
                          sid / 0x100_0000 % 256, sid / 0x1_0000 % 256, sid / 256 % 256, sid % 256];
    n' := Put(out, n, fh);
    n' := Put(out, n', block[..b]);
    HeadersBytes(sid, block[..b]);
    assert out[..n'] == old(out[..n]) + (fh + block[..b]);
  }

  method BuildReq(sid: nat, path: seq<byte>, out: array<byte>) returns (n: nat)
    requires sid < 0x8000_0000 && |path| <= MAX_PATH && out.Length == 1024
    modifies out
    ensures n <= 1024 && out[..n] == Request(sid, path)
  {
    hide Headers, F.Encode, Preface, EmptySettings;
    n := 0;
    FirstBytes();
    if sid == 1 {
      n := Put(out, n, Preface);
      n := Put(out, n, EmptySettings);
    }
    n := PutHeaders(sid, path, out, n);
  }

  lemma BlockBytes(path: seq<byte>)
    ensures |Block(path)| == 15 + |path|
  {
  }

  lemma HeadersBytes(sid: nat, block: seq<byte>)
    requires sid < 0x8000_0000 && |block| <= BLOCK_ROOM
    ensures F.Encode(F.Frame(F.HEADERS, 5, false, sid, block)) ==
      [0, |block| / 256 % 256, |block| % 256, 1, 5,
       sid / 0x100_0000 % 256, sid / 0x1_0000 % 256, sid / 256 % 256, sid % 256] + block
  {
  }

  lemma FirstBytes()
    ensures F.Encode(F.Frame(F.SETTINGS, 0, false, 0, [])) == EmptySettings && |Preface| == 24 && |EmptySettings| == 9
  {
  }

  /** The text of the preface (section 3.4 of RFC 9113) and of the authority. */
  lemma Texts()
    ensures var preface := "PRI * HTTP/2.0\r\n\r\nSM\r\n\r\n";
      |Preface| == |preface| && forall i :: 0 <= i < |preface| ==> Preface[i] == preface[i] as int
    ensures var authority := "localhost";
      |Localhost| == |authority| && forall i :: 0 <= i < |authority| ==> Localhost[i] == authority[i] as int
  {
    var preface := "PRI * HTTP/2.0\r\n\r\nSM\r\n\r\n";
    forall i | 0 <= i < |preface|
      ensures Preface[i] == preface[i] as int
    {
    }
  }

  /** A request in bytes. */
  lemma RequestInBytes(sid: nat, path: seq<byte>)
    requires sid < 0x8000_0000 && |path| <= MAX_PATH
    ensures var b := |path| + 15;
      Request(sid, path) ==
        (if sid == 1 then Preface + [0, 0, 0, 4, 0, 0, 0, 0, 0] else [])
        + ([0, b / 256, b % 256, 1, 5, sid / 0x100_0000, sid / 0x1_0000 % 256, sid / 0x100 % 256, sid % 256]
           + ([0x82, 0x87, 0x04, |path|] + path + [0x01, 9] + Localhost))
  {
    hide F.Encode, Preface, Localhost;
    NameLength();
    FirstBytes();
    HeadersBytes(sid, Block(path));
  }

  // ----- partial writes -----

  /** The writes accept no more than they are given. */
  predicate Fitting(left: nat, outputs: seq<H.Write>)
    decreases |outputs|
  {
    outputs == [] || !outputs[0].Wrote? || (outputs[0].n <= left && Fitting(left - outputs[0].n, outputs[1..]))
  }

  /** The bytes that one round of the write loop hands over. */
  function Wire(req: seq<byte>, sent: nat, outputs: seq<H.Write>): (r: seq<byte>)
    requires sent <= |req| && Fitting(|req| - sent, outputs)
    decreases |outputs|
  {
    if sent == |req| || outputs == [] || !outputs[0].Wrote? then []
    else req[sent..sent + outputs[0].n] + Wire(req, sent + outputs[0].n, outputs[1..])
  }

  predicate Sending(cfg: H.Config, p: H.Pair, req: seq<byte>) {
    p.slot.state == H.SEND && cfg.reqLen(p.slot.sid) == |req| && p.slot.sent <= |req|
  }

  lemma CloseFrees(p: H.Pair)
    ensures H.CloseBroken(p).slot == H.Empty
  {
  }

  /** One turn of the write loop. */
  lemma RoundStep(cfg: H.Config, p: H.Pair, outputs: seq<H.Write>, req: seq<byte>)
    requires Sending(cfg, p, req) && Fitting(|req| - p.slot.sent, outputs)
    ensures var r := H.OnSend(cfg, p, outputs); var wire := Wire(req, p.slot.sent, outputs);
      if p.slot.sent < |req| && outputs != [] && outputs[0].Wrote? then
        var n := outputs[0].n;
        var sent := p.slot.sent + n;
        && n <= |req| - p.slot.sent && Fitting(|req| - sent, outputs[1..])
        && r == H.OnSend(cfg, p.(slot := p.slot.(sent := sent)), outputs[1..])
        && wire == req[p.slot.sent..sent] + Wire(req, sent, outputs[1..])
      else
        && wire == []
        && (r.Go? <==> p.slot.sent == |req|)
        && (r.Stop? ==> r.p == p || r.p.slot == H.Empty)
  {
    hide H.CloseBroken;
    CloseFrees(p);
  }

  /** One round keeps the bytes out equal to a prefix of the request. */
  lemma {:induction false} RoundExtendsPrefix(cfg: H.Config, p: H.Pair, outputs: seq<H.Write>, req: seq<byte>)
    requires Sending(cfg, p, req) && Fitting(|req| - p.slot.sent, outputs)
    ensures var r := H.OnSend(cfg, p, outputs);
      var wire := req[..p.slot.sent] + Wire(req, p.slot.sent, outputs);
      && (r.Go? ==> wire == req)
      && (r.Stop? && r.p.slot.state == H.SEND ==> Sending(cfg, r.p, req) && wire == req[..r.p.slot.sent])
      && (r.Stop? && r.p.slot.state != H.SEND ==> r.p.slot == H.Empty && wire <= req)
    decreases |outputs|
  {
    hide H.OnSend, Wire, Fitting;
    RoundStep(cfg, p, outputs, req);
    var sent := p.slot.sent;
    if sent < |req| && outputs != [] && outputs[0].Wrote? {
      var n := outputs[0].n;
      var q := p.(slot := p.slot.(sent := sent + n));
      RoundExtendsPrefix(cfg, q, outputs[1..], req);
      assert req[..sent] + req[sent..sent + n] == req[..sent + n];
      assert req[..sent] + (req[sent..sent + n] + Wire(req, sent + n, outputs[1..]))
          == req[..sent + n] + Wire(req, sent + n, outputs[1..]);
    } else {
      assert req[..sent] + [] == req[..sent];
    }
  }

  /** What a sequence of events puts on the wire while one request is being sent. */
  datatype Sent = Sent(phase: H.Phase, wire: seq<byte>)

  predicate AllFit(cfg: H.Config, p: H.Pair, rounds: seq<seq<H.Write>>, req: seq<byte>)
    requires Sending(cfg, p, req)
    decreases |rounds|
  {
    rounds == [] ||
    (&& Fitting(|req| - p.slot.sent, rounds[0])
     && var r := H.OnSend(cfg, p, rounds[0]);
        (r.Stop? && Sending(cfg, r.p, req) ==> AllFit(cfg, r.p, rounds[1..], req)))
  }

  /** Round after round until the request is out or the connection is closed. */
  function SendOver(cfg: H.Config, p: H.Pair, rounds: seq<seq<H.Write>>, req: seq<byte>): (res: Sent)
    requires Sending(cfg, p, req) && AllFit(cfg, p, rounds, req)
    decreases |rounds|
  {
    if rounds == [] then Sent(H.Stop(p), [])
    else
      var r := H.OnSend(cfg, p, rounds[0]);
      var out := Wire(req, p.slot.sent, rounds[0]);
      if r.Stop? && Sending(cfg, r.p, req) then
        var rest := SendOver(cfg, r.p, rounds[1..], req);
        Sent(rest.phase, out + rest.wire)
      else Sent(r, out)
  }

  /**
   * However a request is cut up into rounds and partial writes, the peer has received exactly its
   * first bytes in order, and all of it, once, when the slot goes on to read.
   */
  lemma {:induction false} PartialWritesResume(cfg: H.Config, p: H.Pair, rounds: seq<seq<H.Write>>, req: seq<byte>)
    requires Sending(cfg, p, req) && AllFit(cfg, p, rounds, req)
    ensures var s := SendOver(cfg, p, rounds, req);
      var wire := req[..p.slot.sent] + s.wire;
      && (s.phase.Go? ==> wire == req)
      && (s.phase.Stop? && s.phase.p.slot == H.Empty ==> wire <= req)
      && (s.phase.Stop? && s.phase.p.slot != H.Empty ==>
            Sending(cfg, s.phase.p, req) && wire == req[..s.phase.p.slot.sent])
    decreases |rounds|
  {
    hide H.OnSend, Wire, Fitting;
    var sent := p.slot.sent;
    if rounds != [] {
      RoundExtendsPrefix(cfg, p, rounds[0], req);
      var r := H.OnSend(cfg, p, rounds[0]);
      var out := Wire(req, sent, rounds[0]);
      if r.Stop? && Sending(cfg, r.p, req) {
        PartialWritesResume(cfg, r.p, rounds[1..], req);
        var rest := SendOver(cfg, r.p, rounds[1..], req);
        assert req[..sent] + (out + rest.wire) == req[..r.p.slot.sent] + rest.wire;
      }
    } else {
      assert req[..sent] + [] == req[..sent];
    }
  }

  /** The lengths that the write loop goes by are those of the requests for this path. */
  ghost predicate Asks(cfg: H.Config, path: seq<byte>)
    requires |path| <= MAX_PATH
  {
    forall sid: nat :: sid < 0x8000_0000 ==> cfg.reqLen(sid) == |Request(sid, path)|
  }

  /**
   * From the start of a send on, however it is cut up, the peer receives the request of the slot's
   * own stream: its first bytes in order, and exactly all of it when the slot goes on to read.
   */
  lemma RequestArrives(cfg: H.Config, path: seq<byte>, c: H.Counters, s: H.Slot, rounds: seq<seq<H.Write>>)
    requires |path| <= MAX_PATH && Asks(cfg, path)
    requires H.StartSend(cfg, s).sid < 0x8000_0000
    requires var t := H.StartSend(cfg, s); var p := H.Pair(t, c); var req := Request(t.sid, path);
      Sending(cfg, p, req) ==> AllFit(cfg, p, rounds, req)
    ensures var t := H.StartSend(cfg, s); var p := H.Pair(t, c); var req := Request(t.sid, path);
      && Sending(cfg, p, req)
      && var out := SendOver(cfg, p, rounds, req);
      && (out.phase.Go? ==> out.wire == req)
      && (out.phase.Stop? && out.phase.p.slot == H.Empty ==> out.wire <= req)
      && (out.phase.Stop? && out.phase.p.slot != H.Empty ==>
            Sending(cfg, out.phase.p, req) && out.wire == req[..out.phase.p.slot.sent])
  {
    hide AllFit, SendOver, Request;
    var t := H.StartSend(cfg, s);
    var p, req := H.Pair(t, c), Request(t.sid, path);
    PartialWritesResume(cfg, p, rounds, req);
    var wire := SendOver(cfg, p, rounds, req).wire;
    assert req[..0] + wire == wire;
  }

  // ----- streams -----

  /** The stream of a connection's k-th request. */
  function StreamOf(k: nat): (sid: nat) {
    if k == 0 then 0 else (2 * k - 1) % 0x1_0000_0000
  }

  /** A slot's stream is that of its latest request, and it has had one exactly if it is live. */
  predicate StreamOk(cfg: H.Config, s: H.Slot) {
    (cfg.h2 ==> s.sid == StreamOf(s.requests)) && (s.requests > 0 <==> H.IsLive(s))
  }

  lemma StartOk(cfg: H.Config, s: H.Slot)
    requires cfg.h2 ==> s.sid == StreamOf(s.requests)
    ensures StreamOk(cfg, H.StartSend(cfg, s))
  {
  }

  lemma {:induction false} SendOk(cfg: H.Config, p: H.Pair, outputs: seq<H.Write>)
    requires StreamOk(cfg, p.slot)
    ensures StreamOk(cfg, H.OnSend(cfg, p, outputs).p.slot)
    decreases |outputs|
  {
    hide H.CloseBroken;
    CloseFrees(p);
    if p.slot.state == H.SEND && p.slot.sent < cfg.reqLen(p.slot.sid) && outputs != [] && outputs[0].Wrote? {
      SendOk(cfg, p.(slot := p.slot.(sent := p.slot.sent + outputs[0].n)), outputs[1..]);
    }
  }

  lemma {:induction false} ReadOk(cfg: H.Config, p: H.Pair, inputs: seq<H.Read>)
    requires StreamOk(cfg, p.slot) && H.IsLive(p.slot)
    ensures StreamOk(cfg, H.OnRead(cfg, p, inputs).slot)
    decreases |inputs|
  {
    hide H.CloseBroken;
    CloseFrees(p);
    if inputs != [] && inputs[0].Got? {
      ReadOk(cfg, p, inputs[1..]);
      ReadOk(cfg, H.Answered(p), inputs[1..]);
    }
  }

  lemma EventOk(cfg: H.Config, p: H.Pair, ev: H.Event)
    requires StreamOk(cfg, p.slot)
    ensures StreamOk(cfg, H.OnEvent(cfg, p, ev).slot)
  {
    hide H.OnSend, H.OnRead, StreamOf;
    EmptyOk(cfg);
    StartOk(cfg, p.slot);
    var p1 := H.OnConnect(cfg, p, ev);
    var p2 := H.OnHandshake(cfg, p1.p, ev);
    StartOk(cfg, p1.p.slot);
    assert StreamOk(cfg, p1.p.slot) && StreamOk(cfg, p2.p.slot);
    SendOk(cfg, p2.p, ev.outputs);
    var p3 := H.OnSend(cfg, p2.p, ev.outputs);
    if H.IsLive(p3.p.slot) {
      ReadOk(cfg, p3.p, ev.inputs);
    }
  }

  ghost predicate StreamsOk(cfg: H.Config, slots: seq<H.Slot>) {
    forall i :: 0 <= i < |slots| ==> StreamOk(cfg, slots[i])
  }

  lemma DispatchOk(cfg: H.Config, ch: H.Child, i: nat, ev: H.Event)
    requires StreamsOk(cfg, ch.slots) && i < |ch.slots|
    ensures StreamsOk(cfg, H.Dispatch(cfg, ch, i, ev).slots)
  {
    hide H.OnEvent, StreamOk;
    EventOk(cfg, H.Pair(ch.slots[i], ch.c), ev);
  }

  lemma ScanOk(cfg: H.Config, ch: H.Child, i: nat, due: bool, ev: H.Event)
    requires StreamsOk(cfg, ch.slots) && i < |ch.slots|
    ensures StreamsOk(cfg, H.Scan(cfg, ch, i, due, ev).slots)
  {
    hide H.Dispatch, StreamOf;
    StartOk(cfg, ch.slots[i]);
    EmptyOk(cfg);
    if ch.slots[i].state == H.IDLE && due {
      DispatchOk(cfg, ch.(slots := ch.slots[i := H.StartSend(cfg, ch.slots[i])]), i, ev);
    }
  }

  lemma EmptyOk(cfg: H.Config)
    ensures StreamOk(cfg, H.Empty) && StreamOf(0) == 0
  {
  }

  lemma {:induction false} TickOk(cfg: H.Config, ch: H.Child, k: nat, due: seq<bool>, evs: seq<H.Event>)
    requires StreamsOk(cfg, ch.slots) && ch.next <= |ch.slots| && |due| == |evs| >= ch.next
    ensures StreamsOk(cfg, H.TickFrom(cfg, ch, k, due, evs).slots)
    decreases ch.next - k
  {
    hide H.OnEvent, StreamOk;
    if k < ch.next {
      ScanOk(cfg, ch, k, due[k], evs[k]);
      TickOk(cfg, H.Scan(cfg, ch, k, due[k], evs[k]), k + 1, due, evs);
    }
  }

  lemma FreshSlot(cfg: H.Config, ch: H.Child)
    requires H.Inv(ch)
    ensures ch.next < |ch.slots| ==> StreamOk(cfg, ch.slots[ch.next].(state := H.CONNECT))
  {
    hide H.TallyOf;
  }

  lemma {:induction false} RunOk(cfg: H.Config, ch: H.Child, acts: seq<H.Action>)
    requires StreamsOk(cfg, ch.slots) && ch.next <= |ch.slots| && H.Inv(ch)
    ensures StreamsOk(cfg, H.Run(cfg, ch, acts).slots)
    decreases |acts|
  {
    hide H.OnEvent, H.TickFrom, H.Dispatch, StreamOf;
    if acts != [] {
      match acts[0] {
        case TryNext(_) => FreshSlot(cfg, ch);
        case Deliver(i, ev) => if i < |ch.slots| { DispatchOk(cfg, ch, i, ev); }
        case Tick(due, evs) => if |due| == |evs| >= ch.next { TickOk(cfg, ch, 0, due, evs); }
      }
      assert StreamsOk(cfg, H.Act(cfg, ch, acts[0]).slots);
      H.ActKeepsInv(cfg, ch, acts[0]);
      RunOk(cfg, H.Act(cfg, ch, acts[0]), acts[1..]);
    }
  }

  /**
   * In every run of a child the k-th request of a connection is on stream 2k - 1, until the 31
   * bits run out, and a slot without a live connection is on none.
   */
  lemma RequestsOpenOddStreams(cfg: H.Config, count: nat, acts: seq<H.Action>, i: nat)
    requires cfg.h2 && i < count
    ensures var s := H.Run(cfg, H.Init(count), acts).slots[i];
      && (H.IsLive(s) <==> s.requests > 0)
      && (s.requests == 0 ==> s.sid == 0)
      && (0 < s.requests <= 0x4000_0000 ==> s.sid == 2 * s.requests - 1 < 0x8000_0000)
  {
    hide H.Run;
    EmptyOk(cfg);
    H.InitInv(count);
    RunOk(cfg, H.Init(count), acts);
  }

  // ----- the header block, read back (RFC 7541, section 6) -----

  datatype Field = Indexed(index: nat) | Literal(name: nat, huffman: bool, value: seq<byte>)

  /** The continuation of a length, as section 5.1 of RFC 7541 has it. */
  function Continued(b: seq<byte>): (r: (nat, nat, bool))
    ensures r.1 <= |b|
  {
    if b == [] then (0, 0, false)
    else
      var low: nat := b[0] % 128;
      if b[0] < 128 then (low, 1, true)
      else var r := Continued(b[1..]); (low + 128 * r.0, 1 + r.1, r.2)
  }

  /** A length prefix of seven bits and the string after it: the string, its coding and what follows. */
  datatype Str = Bad | Str(huffman: bool, value: seq<byte>, rest: seq<byte>)

  function StringAt(b: seq<byte>): (s: Str)
    ensures s.Str? ==> |s.rest| < |b|
  {
    if b == [] then Bad
    else
      var low: nat := b[0] % 128;
      var c := if low < 127 then (0, 0, true) else Continued(b[1..]);
      var n: nat, from: nat := low + c.0, 1 + c.1;
      if !c.2 || from + n > |b| then Bad else Str(b[0] >= 128, b[from..from + n], b[from + n..])
  }

  /** Indexed fields and literals without indexing whose names are indexed; nothing else is sent. */
  function Fields(b: seq<byte>): (fields: seq<Field>)
    decreases |b|
  {
    if b == [] then []
    else if 128 < b[0] < 255 then [Indexed(b[0] - 128)] + Fields(b[1..])
    else if 0 < b[0] < 15 then
      var s := StringAt(b[1..]);
      if s.Bad? then [] else [Literal(b[0], s.huffman, s.value)] + Fields(s.rest)
    else []
  }

  /** GET, https, the path and the authority, by their static table entries. */
  function Wanted(path: seq<byte>): (r: seq<Field>) {
    [Indexed(2), Indexed(7), Literal(4, false, path), Literal(1, false, Localhost)]
  }

  lemma {:induction false} ContinuedPositive(b: seq<byte>)
    requires 0 !in b
    ensures Continued(b).2 ==> Continued(b).0 > 0
  {
    if b != [] && b[0] >= 128 {
      ContinuedPositive(b[1..]);
    }
  }

  lemma ShortString(text: seq<byte>, rest: seq<byte>)
    requires |text| < 127
    ensures StringAt([|text|] + text + rest) == Str(false, text, rest)
  {
    var b: seq<byte> := [|text|] + text + rest;
    assert b[1..1 + |text|] == text && b[1 + |text|..] == rest;
  }

  lemma PathString(path: seq<byte>, rest: seq<byte>)
    requires |path| <= MAX_PATH && 0 !in path && 0 !in rest
    ensures var s := StringAt([|path|] + path + rest);
      s == Str(false, path, rest) <==> |path| < 127
    ensures var s := StringAt([|path|] + path + rest);
      |path| >= 127 && s.Str? ==> s.huffman || s.value != path
  {
    var b: seq<byte> := [|path|] + path + rest;
    if |path| < 127 {
      ShortString(path, rest);
    } else if |path| == 127 {
      assert b[1..] == path + rest;
      ContinuedPositive(b[1..]);
    }
  }

  lemma FieldsOfBlock(path: seq<byte>)
    requires |path| <= MAX_PATH && 0 !in path
    ensures var s := StringAt([|path|] + path + ([0x01, 9] + Localhost));
      Fields(Block(path)) == [Indexed(2), Indexed(7)] +
        if s.Bad? then [] else [Literal(4, s.huffman, s.value)] + Fields(s.rest)
  {
    hide StringAt;
    var tail: seq<byte> := [|path|] + path + ([0x01, 9] + Localhost);
    var b := Block(path);
    assert b == [0x82, 0x87, 0x04] + tail;
    assert b[1..][0] == 0x87 && b[1..][1..][0] == 0x04 && b[1..][1..][1..] == tail;
    FieldsStep(b);
    FieldsStep(b[1..]);
    FieldsStep(b[1..][1..]);
    var f := Fields(b[1..][1..]);
    assert [Indexed(2)] + ([Indexed(7)] + f) == [Indexed(2), Indexed(7)] + f;
  }

  lemma FieldsStep(b: seq<byte>)
    requires b != []
    ensures 128 < b[0] < 255 ==> Fields(b) == [Indexed(b[0] - 128)] + Fields(b[1..])
    ensures 0 < b[0] < 15 ==> var s := StringAt(b[1..]);
      Fields(b) == if s.Bad? then [] else [Literal(b[0], s.huffman, s.value)] + Fields(s.rest)
  {
  }

  lemma AuthorityFields()
    ensures Fields([0x01, 9] + Localhost) == [Literal(1, false, Localhost)]
  {
    hide StringAt, Localhost;
    var b: seq<byte> := [0x01, 9] + Localhost;
    NameLength();
    ShortString(Localhost, []);
    assert b[1..] == [9] + Localhost + [];
    FieldsStep(b);
    assert [Literal(1, false, Localhost)] + [] == [Literal(1, false, Localhost)];
  }

  lemma NameLength()
    ensures |Localhost| == 9 && 0 !in Localhost
  {
  }

  /**
   * A peer reads the intended header fields back exactly when the path is shorter than 127 bytes:
   * the length is written as one byte, which from there on means something else.
   */
  lemma PathReadBackIffShort(path: seq<byte>)
    requires |path| <= MAX_PATH && 0 !in path
    ensures Fields(Block(path)) == Wanted(path) <==> |path| < 127
  {
    hide Fields, StringAt, Localhost;
    var rest: seq<byte> := [0x01, 9] + Localhost;
    var s := StringAt([|path|] + path + rest);
    FieldsOfBlock(path);
    NameLength();
    PathString(path, rest);
    AuthorityFields();
    if Fields(Block(path)) == Wanted(path) {
      assert Wanted(path)[2] == Literal(4, false, path);
      assert s.Str?;
      assert Fields(Block(path))[2] == Literal(4, s.huffman, s.value);
    }
  }
}
