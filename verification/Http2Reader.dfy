/**
 * The incremental HTTP/2 frame reader of tools/connhold.c (consume_h2).
 * The chunked loop is proved against a byte-at-a-time machine, and that machine
 * against the frame format of section 4.1 of RFC 9113.
 */
module Http2Reader {
  import Bytes
  import opened Common

  const DATA := 0
  const HEADERS := 1
  const RST_STREAM := 3
  const SETTINGS := 4
  const PING := 6
  const GOAWAY := 7
  const WINDOW_UPDATE := 8

  /** The frame-reader fields of slot_t. */
  datatype Reader = Reader(
    fh: seq<byte>, fhGot: nat, fLeft: nat, fType: byte, fFlags: byte, fStream: nat, pb: seq<byte>, pbGot: nat)
  {
    predicate Valid() {
      && |fh| == 9 && |pb| == 8 && pbGot <= 8
      && fhGot <= 9
      && (fhGot == 9 ==>
        fLeft > 0 && fType == fh[3] && fFlags == fh[4] && fStream == StreamOf(fh))
    }
  }

  function LengthOf(fh: seq<byte>): (r: nat)
    requires |fh| == 9
  {
    (fh[0] as int) * 0x1_0000 + (fh[1] as int) * 256 + fh[2]
  }

  function StreamOf(fh: seq<byte>): (r: nat)
    requires |fh| == 9
  {
    (fh[5] as int) % 128 * 0x100_0000 + (fh[6] as int) * 0x1_0000 + (fh[7] as int) * 256 + fh[8]
  }

  /** A reader together with what it has sent, whether its stream has ended, and whether it gave up. */
  datatype Run = Run(st: Reader, sent: seq<seq<byte>>, done: bool, failed: bool)

  // ----- replies -----

  function WindowUpdate(len: nat): (r: seq<byte>)
    requires len < 0x1_0000_0000
  {
    [0, 0, 4, WINDOW_UPDATE, 0, 0, 0, 0, 0, len / 0x100_0000, len / 0x1_0000 % 256, len / 256 % 256, len % 256]
  }

  const SettingsAck: seq<byte> := [0, 0, 0, SETTINGS, 1, 0, 0, 0, 0]

  function Pong(pb: seq<byte>): (r: seq<byte>) {
    [0, 0, 8, PING, 1, 0, 0, 0, 0] + pb
  }

  /** What a completed frame makes the reader do. */
  datatype Reaction = Quiet | Reply(bytes: seq<byte>) | Abort

  function React(sid: nat, kind: byte, flags: byte, stream: nat, len: nat, pb: seq<byte>): (r: Reaction)
    requires len < 0x1_0000_0000
  {
    if kind == DATA then if len > 0 then Reply(WindowUpdate(len)) else Quiet
    else if kind == RST_STREAM then if stream == sid then Abort else Quiet
    else if kind == SETTINGS then if flags % 2 == 0 then Reply(SettingsAck) else Quiet
    else if kind == PING then if flags % 2 == 0 then Reply(Pong(pb)) else Quiet
    else if kind == GOAWAY then Abort
    else Quiet
  }

  /** Does this frame end our stream? */
  predicate Ends(sid: nat, kind: byte, flags: byte, stream: nat) {
    (kind == DATA || kind == HEADERS) && stream == sid && flags % 2 == 1
  }

  /** The k-th message ever sent on the connection succeeds iff `accepts(k)`. */
  function Perform(accepts: nat -> bool, sent: seq<seq<byte>>, done: bool, r: Reaction, ends: bool)
    : (res: (seq<seq<byte>>, bool, bool))
  {
    match r
    case Quiet => (sent, done || ends, false)
    case Abort => (sent, done, true)
    case Reply(bytes) => if accepts(|sent|) then (sent + [bytes], done || ends, false) else (sent + [bytes], done, true)
  }

  // ----- one byte at a time -----

  /** PING payload bytes fill pb until it holds eight. */
  function Absorb(st: Reader, d: seq<byte>): (r: Reader)
    requires st.Valid()
  {
    if st.fType != PING then st
    else
      var n := Min(|d|, 8 - st.pbGot);
      st.(pb := st.pb[..st.pbGot] + d[..n] + st.pb[st.pbGot + n..], pbGot := st.pbGot + n)
  }

  /** Header bytes up to the ninth, which loads the frame fields. */
  function TakeHeader(st: Reader, d: seq<byte>): (r: Reader)
    requires st.Valid() && st.fhGot + |d| <= 9
    ensures |r.fh| == 9 && |r.pb| == 8
  {
    var fh := st.fh[..st.fhGot] + d + st.fh[st.fhGot + |d|..];
    var r := st.(fh := fh, fhGot := st.fhGot + |d|);
    if r.fhGot < 9 then r
    else r.(fLeft := LengthOf(fh), fType := fh[3], fFlags := fh[4], fStream := StreamOf(fh), pbGot := 0)
  }

  function TakePayload(st: Reader, d: seq<byte>): (r: Reader)
    requires st.Valid() && |d| <= st.fLeft
    ensures |r.fh| == 9 && |r.pb| == 8
  {
    Absorb(st, d).(fLeft := st.fLeft - |d|)
  }

  function Take(st: Reader, d: seq<byte>): (r: Reader)
    requires st.Valid() && if st.fhGot < 9 then st.fhGot + |d| <= 9 else |d| <= st.fLeft
    ensures |r.fh| == 9 && |r.pb| == 8
  {
    if st.fhGot < 9 then TakeHeader(st, d) else TakePayload(st, d)
  }

  predicate Complete(st: Reader) {
    st.fhGot == 9 && st.fLeft == 0
  }

  /** Acts on the frame if its last byte has arrived. */
  function Settle(sid: nat, accepts: nat -> bool, run: Run): (res: Run)
    requires |run.st.fh| == 9
  {
    if !Complete(run.st) then run
    else
      var st := run.st;
      var r := React(sid, st.fType, st.fFlags, st.fStream, LengthOf(st.fh), st.pb);
      var (sent, done, failed) := Perform(accepts, run.sent, run.done, r, Ends(sid, st.fType, st.fFlags, st.fStream));
      Run(st.(fhGot := 0), sent, done, failed)
  }

  function Step(sid: nat, accepts: nat -> bool, run: Run, b: byte): (r: Run)
    requires run.st.Valid()
    ensures r.st.Valid()
  {
    if run.failed then run else Settle(sid, accepts, run.(st := Take(run.st, [b])))
  }

  /** The machine fed a whole buffer; once it has failed it reads no more. */
  function Feed(sid: nat, accepts: nat -> bool, run: Run, data: seq<byte>): (r: Run)
    requires run.st.Valid()
    ensures r.st.Valid()
    decreases |data|
  {
    if data == [] then run else Feed(sid, accepts, Step(sid, accepts, run, data[0]), data[1..])
  }

  /** Split independence: a + b in one read is a and then b, in state, output and result. */
  lemma {:induction false} FeedSplits(sid: nat, accepts: nat -> bool, run: Run, a: seq<byte>, b: seq<byte>)
    requires run.st.Valid()
    ensures Feed(sid, accepts, run, a + b) == Feed(sid, accepts, Feed(sid, accepts, run, a), b)
    decreases |a|
  {
    if a == [] {
      assert a + b == b;
    } else {
      assert (a + b)[1..] == a[1..] + b;
      FeedSplits(sid, accepts, Step(sid, accepts, run, a[0]), a[1..], b);
    }
  }

  lemma {:induction false} FeedFailed(sid: nat, accepts: nat -> bool, run: Run, data: seq<byte>)
    requires run.st.Valid() && run.failed
    ensures Feed(sid, accepts, run, data) == run
    decreases |data|
  {
    if data != [] {
      FeedFailed(sid, accepts, run, data[1..]);
    }
  }

  /** Any list of reads, each continuing where the last one stopped. */
  function FeedAll(sid: nat, accepts: nat -> bool, run: Run, chunks: seq<seq<byte>>): (r: Run)
    requires run.st.Valid()
    ensures r.st.Valid()
    decreases |chunks|
  {
    if chunks == [] then run else FeedAll(sid, accepts, Feed(sid, accepts, run, chunks[0]), chunks[1..])
  }

  /** However the stream is cut into reads, the run is that of the whole stream. */
  lemma {:induction false} ChunkingIrrelevant(sid: nat, accepts: nat -> bool, run: Run, chunks: seq<seq<byte>>)
    requires run.st.Valid()
    ensures FeedAll(sid, accepts, run, chunks) == Feed(sid, accepts, run, Concat(chunks))
    decreases |chunks|
  {
    if chunks != [] {
      FeedSplits(sid, accepts, run, chunks[0], Concat(chunks[1..]));
      ChunkingIrrelevant(sid, accepts, Feed(sid, accepts, run, chunks[0]), chunks[1..]);
    }
  }

  // ----- many bytes of one header or payload at once -----

  lemma TakeOneMoreHeader(st: Reader, d: seq<byte>, b: byte)
    requires st.Valid() && st.fhGot + |d| < 9
    ensures Take(st, d).Valid() && !Complete(Take(st, d))
    ensures Take(Take(st, d), [b]) == Take(st, d + [b])
  {
    hide LengthOf, StreamOf;
    var t := Take(st, d);
    assert t.fh[..t.fhGot] + [b] + t.fh[t.fhGot + 1..]
        == st.fh[..st.fhGot] + (d + [b]) + st.fh[st.fhGot + |d| + 1..];
  }

  lemma TakeOneMorePayload(st: Reader, d: seq<byte>, b: byte)
    requires st.Valid() && st.fhGot == 9 && |d| < st.fLeft
    ensures Take(st, d).Valid() && !Complete(Take(st, d))
    ensures Take(Take(st, d), [b]) == Take(st, d + [b])
  {
    hide LengthOf, StreamOf;
    if st.fType == PING {
      var t, n := Take(st, d), Min(|d|, 8 - st.pbGot);
      if t.pbGot < 8 {
        assert t.pb[..t.pbGot] + [b][..1] + t.pb[t.pbGot + 1..]
            == st.pb[..st.pbGot] + (d + [b])[..n + 1] + st.pb[st.pbGot + n + 1..];
      } else {
        assert (d + [b])[..n] == d[..n];
        assert t.pb[..8] + [b][..0] + t.pb[8..] == t.pb;
      }
    }
  }

  lemma TakeOneMore(st: Reader, d: seq<byte>, b: byte)
    requires st.Valid() && if st.fhGot < 9 then st.fhGot + |d| < 9 else |d| < st.fLeft
    ensures Take(st, d).Valid() && !Complete(Take(st, d))
    ensures Take(Take(st, d), [b]) == Take(st, d + [b])
  {
    hide Take;
    if st.fhGot < 9 {
      TakeOneMoreHeader(st, d, b);
    } else {
      TakeOneMorePayload(st, d, b);
    }
  }

  /** The block copies of the loop do what the same bytes do one by one. */
  lemma {:induction false} FeedIsTake(sid: nat, accepts: nat -> bool, run: Run, d: seq<byte>)
    requires run.st.Valid() && !run.failed && d != []
    requires if run.st.fhGot < 9 then run.st.fhGot + |d| <= 9 else |d| <= run.st.fLeft
    ensures Feed(sid, accepts, run, d) == Settle(sid, accepts, run.(st := Take(run.st, d)))
    decreases |d|
  {
    hide Take, React, Perform, Ends;
    var n := |d| - 1;
    var front, b := d[..n], d[n];
    assert front + [b] == d;
    FeedSplits(sid, accepts, run, front, [b]);
    TakeOneMore(run.st, front, b);
    TakeNone(run.st);
    if n > 0 {
      FeedIsTake(sid, accepts, run, front);
    }
    var mid := run.(st := Take(run.st, front));
    assert Feed(sid, accepts, run, front) == mid;
    FeedOne(sid, accepts, mid, b);
  }

  lemma FeedOne(sid: nat, accepts: nat -> bool, run: Run, b: byte)
    requires run.st.Valid()
    ensures Feed(sid, accepts, run, [b]) == Step(sid, accepts, run, b)
  {
    hide Step;
    assert [b][1..] == [];
  }

  lemma TakeNone(st: Reader)
    requires st.Valid()
    ensures Take(st, []) == st
  {
    assert st.fh[..st.fhGot] + [] + st.fh[st.fhGot..] == st.fh;
    assert st.pb[..st.pbGot] + [] + st.pb[st.pbGot..] == st.pb;
  }

  // ----- the reads of one connection -----

  function Outcome(run: Run): (r: int) {
    if run.failed then -1 else if run.done then 1 else 0
  }

  function Start(st: Reader, sent: seq<seq<byte>>): (r: Run) {
    Run(st, sent, false, false)
  }

  lemma {:induction false} DoneCarries(sid: nat, accepts: nat -> bool, run: Run, data: seq<byte>)
    requires run.st.Valid()
    ensures Feed(sid, accepts, run.(done := true), data) == Feed(sid, accepts, run, data).(done := true)
    decreases |data|
  {
    hide Take, React, Ends;
    if data != [] {
      assert Step(sid, accepts, run.(done := true), data[0]) == Step(sid, accepts, run, data[0]).(done := true);
      DoneCarries(sid, accepts, Step(sid, accepts, run, data[0]), data[1..]);
    }
  }

  /**
   * Reading a and then b gives the state and the output of reading a + b; the result is -1
   * in both cases or the or of the two results, and after a failure b is not looked at.
   */
  lemma SplitIndependence(sid: nat, accepts: nat -> bool, st: Reader, sent: seq<seq<byte>>, a: seq<byte>, b: seq<byte>)
    requires st.Valid()
    ensures var first := Feed(sid, accepts, Start(st, sent), a);
      var second := Feed(sid, accepts, Start(first.st, first.sent), b);
      var whole := Feed(sid, accepts, Start(st, sent), a + b);
      if Outcome(first) == -1 then Outcome(whole) == -1 && whole.st == first.st && whole.sent == first.sent
      else
        && whole.st == second.st && whole.sent == second.sent
        && Outcome(whole) == (if Outcome(second) == -1 then -1
                              else if Outcome(first) == 1 || Outcome(second) == 1 then 1 else 0)
  {
    var first := Feed(sid, accepts, Start(st, sent), a);
    FeedSplits(sid, accepts, Start(st, sent), a, b);
    if first.failed {
      FeedFailed(sid, accepts, first, b);
    } else if first.done {
      DoneCarries(sid, accepts, Start(first.st, first.sent), b);
      assert first == Start(first.st, first.sent).(done := true);
    } else {
      assert first == Start(first.st, first.sent);
    }
  }

  // ----- consume_h2 -----

  method CopyInto(a: array<byte>, at: nat, d: seq<byte>)
    requires at + |d| <= a.Length
    modifies a
    ensures a[..] == old(a[..at]) + d + old(a[at + |d|..])
  {
    for i := 0 to |d|
      invariant forall k :: at <= k < at + i ==> a[k] == d[k - at]
      invariant forall k :: 0 <= k < a.Length && !(at <= k < at + i) ==> a[k] == old(a[k])
    {
      a[at + i] := d[i];
    }
  }

  class Slot {
    const accepts: nat -> bool  // the socket: which sends go out whole
    const fh: array<byte>
    const pb: array<byte>
    var sid: nat
    var fhGot: nat
    var fLeft: nat
    var fType: byte
    var fFlags: byte
    var fStream: nat
    var pbGot: nat
    var sent: seq<seq<byte>>

    ghost function View(): (r: Reader)
      reads this, fh, pb
    {
      Reader(fh[..], fhGot, fLeft, fType, fFlags, fStream, pb[..], pbGot)
    }

    ghost predicate Valid()
      reads this, fh, pb
    {
      fh != pb && View().Valid()
    }

    /** memset to zero, as a closed or fresh slot is. */
    constructor (accepts: nat -> bool, sid: nat)
      ensures Valid() && fresh(fh) && fresh(pb) && this.sid == sid && this.accepts == accepts && sent == []
      ensures fhGot == 0
    {
      this.accepts := accepts;
      this.sid := sid;
      fh := new byte[9](i => 0);
      pb := new byte[8](i => 0);
      fhGot, fLeft, fType, fFlags, fStream, pbGot := 0, 0, 0, 0, 0, 0;
      sent := [];
    }

    method Send(bytes: seq<byte>) returns (ok: bool)
      modifies this`sent
      ensures sent == old(sent) + [bytes] && ok == accepts(|old(sent)|)
    {
      ok := accepts(|sent|);
      sent := sent + [bytes];
    }

    /** The header branch of the loop: copies `d` and loads the fields on the ninth byte. */
    method CopyHeader(d: seq<byte>)
      requires Valid() && fhGot + |d| <= 9 && fhGot < 9
      modifies this, fh
      ensures View() == TakeHeader(old(View()), d)
      ensures sid == old(sid) && sent == old(sent)
    {
      CopyInto(fh, fhGot, d);
      fhGot := fhGot + |d|;
      if fhGot < 9 {
        return;
      }
      fLeft := LengthOf(fh[..]);
      fType := fh[3];
      fFlags := fh[4];
      fStream := StreamOf(fh[..]);
      pbGot := 0;
    }

    /** The payload branch. */
    method CopyPayload(d: seq<byte>)
      requires Valid() && fhGot == 9 && |d| <= fLeft
      modifies this, pb
      ensures View() == TakePayload(old(View()), d)
      ensures sid == old(sid) && sent == old(sent)
    {
      if fType == PING {
        var i := 0;
        while i < |d| && pbGot < 8
          invariant i <= |d| && old(pbGot) <= pbGot == old(pbGot) + i <= 8
          invariant forall k :: 0 <= k < 8 ==>
            pb[k] == if old(pbGot) <= k < pbGot then d[k - old(pbGot)] else old(pb[k])
          invariant unchanged(fh) && unchanged(`fhGot, `fLeft, `fType, `fFlags, `fStream, `sid, `sent)
        {
          pb[pbGot] := d[i];
          pbGot := pbGot + 1;
          i := i + 1;
        }
      }
      fLeft := fLeft - |d|;
    }

    /** The switch on the frame type; false when the caller must return -1. */
    method Reply(len: nat) returns (ok: bool)
      requires pb.Length == 8 && len < 0x1_0000_0000
      modifies this`sent
      ensures var r := React(sid, fType, fFlags, fStream, len, pb[..]);
        var p := Perform(accepts, old(sent), false, r, false);
        sent == p.0 && ok == !p.2
    {
      if fType == DATA {
        if len > 0 {
          ok := Send(WindowUpdate(len));
          return;
        }
      } else if fType == RST_STREAM {
        return fStream != sid;
      } else if fType == SETTINGS {
        if fFlags % 2 == 0 {
          ok := Send(SettingsAck);
          return;
        }
      } else if fType == PING {
        if fFlags % 2 == 0 {
          ok := Send(Pong(pb[..]));
          return;
        }
      } else if fType == GOAWAY {
        return false;
      }
      return true;
    }

    /** One read: any buffer, any split of a frame across calls. */
    method ConsumeH2(data: seq<byte>) returns (result: int)
      requires Valid()
      modifies this, fh, pb
      ensures Valid() && sid == old(sid)
      ensures var run := Feed(sid, accepts, Start(old(View()), old(sent)), data);
        View() == run.st && sent == run.sent && result == if run.failed then -1 else if run.done then 1 else 0
    {
      hide TakeHeader, TakePayload, React, Ends, Reader.Valid, Feed;
      ghost var whole := Feed(sid, accepts, Start(View(), sent), data);
      var done := false;
      var rest := data;
      FeedEmpty(sid, accepts);
      while rest != []
        invariant Valid() && sid == old(sid)
        invariant Feed(sid, accepts, Run(View(), sent, done, false), rest) == whole
        decreases |rest|
      {
        ghost var run := Run(View(), sent, done, false);
        var room := if fhGot < 9 then 9 - fhGot else fLeft;
        ReadyHasRoom(View());
        var take := if room < |rest| then room else |rest|;
        ghost var d := rest[..take];
        FeedSplits(sid, accepts, run, d, rest[take..]);
        assert d + rest[take..] == rest;
        FeedIsTake(sid, accepts, run, d);
        TakeKeepsValid(View(), d);
        if fhGot < 9 {
          CopyHeader(rest[..take]);
        } else {
          CopyPayload(rest[..take]);
        }
        rest := rest[take..];
        ghost var mid := run.(st := View());
        if fhGot < 9 || fLeft > 0 {
          continue;
        }
        SettleComplete(sid, accepts, mid);
        var len := LengthOf(fh[..]);
        fhGot := 0;
        var ok := Reply(len);
        if !ok {
          FeedFailed(sid, accepts, Settle(sid, accepts, mid), rest);
          return -1;
        }
        if Ends(sid, fType, fFlags, fStream) {
          done := true;
        }
      }
      result := if done then 1 else 0;
    }
  }

  lemma FeedEmpty(sid: nat, accepts: nat -> bool)
    ensures forall run: Run :: run.st.Valid() ==> Feed(sid, accepts, run, []) == run
  {
  }

  lemma ReadyHasRoom(st: Reader)
    requires st.Valid()
    ensures st.fhGot < 9 || (st.fhGot == 9 && st.fLeft > 0)
    ensures |st.fh| == 9 && |st.pb| == 8
  {
  }

  lemma TakeKeepsValid(st: Reader, d: seq<byte>)
    requires st.Valid() && if st.fhGot < 9 then st.fhGot + |d| <= 9 else |d| <= st.fLeft
    ensures Complete(Take(st, d)) || Take(st, d).Valid()
    ensures Take(st, d).(fhGot := 0).Valid() && Take(st, d).fhGot <= 9
  {
  }

  lemma SettleComplete(sid: nat, accepts: nat -> bool, run: Run)
    requires |run.st.fh| == 9 && Complete(run.st)
    ensures var st := run.st;
      var p := Perform(accepts, run.sent, false, React(sid, st.fType, st.fFlags, st.fStream, LengthOf(st.fh), st.pb), false);
      && Settle(sid, accepts, run).st == st.(fhGot := 0)
      && Settle(sid, accepts, run).sent == p.0
      && Settle(sid, accepts, run).failed == p.2
      && (!p.2 ==> Settle(sid, accepts, run).done == (run.done || Ends(sid, st.fType, st.fFlags, st.fStream)))
  {
    hide React, Ends;
  }

  // ----- the frame format of section 4.1 of RFC 9113 -----

  datatype RawFrame = Frame(kind: byte, flags: byte, reserved: bool, stream: nat, payload: seq<byte>)

  /** The stream identifier has 31 bits and the length 24. */
  type Frame = f: RawFrame | f.stream < 0x8000_0000 && |f.payload| < 0x100_0000
    witness RawFrame.Frame(0, 0, false, 0, [])

  function Header(f: Frame): (h: seq<byte>)
    ensures |h| == 9
  {
    var n, s := |f.payload|, f.stream;
    [n / 0x1_0000, n / 256 % 256, n % 256, f.kind, f.flags,
     s / 0x100_0000 + (if f.reserved then 128 else 0), s / 0x1_0000 % 256, s / 256 % 256, s % 256]
  }

  lemma HeaderFields(f: Frame)
    ensures LengthOf(Header(f)) == |f.payload| && StreamOf(Header(f)) == f.stream
  {
    Bytes.SplitWord(|f.payload|);
    Bytes.SplitWord(f.stream);
    var top := f.stream / 0x100_0000;
    assert top < 128;
    assert (top + if f.reserved then 128 else 0) % 128 == top;
  }

  function Encode(f: Frame): (r: seq<byte>)
  {
    Header(f) + f.payload
  }

  /** The PING buffer after a frame: the first eight payload bytes over what was there. */
  function EchoBytes(pb: seq<byte>, f: Frame): (r: seq<byte>)
    requires |pb| == 8
    ensures |r| == 8
  {
    if f.kind != PING then pb
    else var n := Min(|f.payload|, 8); f.payload[..n] + pb[n..]
  }

  /** A PING is echoed exactly if its size is legal; a shorter one is padded from the previous echo, a longer one cut. */
  lemma EchoIsPayload(pb: seq<byte>, f: Frame)
    requires |pb| == 8 && f.kind == PING
    ensures EchoBytes(pb, f) == f.payload <==> |f.payload| == 8
    ensures |f.payload| < 8 ==> EchoBytes(pb, f)[|f.payload|..] == pb[|f.payload|..]
    ensures |f.payload| > 8 ==> EchoBytes(pb, f) == f.payload[..8]
  {
  }

  /** What the bytes of one whole frame do to an idle reader. */
  lemma FrameHandled(sid: nat, accepts: nat -> bool, run: Run, f: Frame)
    requires run.st.Valid() && run.st.fhGot == 0 && !run.failed
    ensures var r := Feed(sid, accepts, run, Encode(f));
      var pb := EchoBytes(run.st.pb, f);
      var react := React(sid, f.kind, f.flags, f.stream, |f.payload|, pb);
      && (r.sent, r.done, r.failed)
         == Perform(accepts, run.sent, run.done, react, Ends(sid, f.kind, f.flags, f.stream))
      && r.st.fhGot == 0 && r.st.pb == pb
  {
    hide React, Ends, Header, LengthOf, StreamOf, Feed;
    var h := Header(f);
    HeaderFields(f);
    FeedSplits(sid, accepts, run, h, f.payload);
    FeedIsTake(sid, accepts, run, h);
    var st := Take(run.st, h);
    assert [] + h + [] == h && st.fh == h;
    assert st.fType == f.kind && st.fFlags == f.flags by {
      hide *;
      KindOf(f);
    }
    assert st.pb == run.st.pb && st.pbGot == 0;
    FeedEmpty(sid, accepts);
    if f.payload != [] {
      FeedIsTake(sid, accepts, run.(st := st), f.payload);
      var n := Min(|f.payload|, 8);
      if f.kind == PING {
        assert st.pb[..0] + f.payload[..n] + st.pb[n..] == EchoBytes(run.st.pb, f);
      }
      assert Take(st, f.payload).pb == EchoBytes(run.st.pb, f);
    } else if f.kind == PING {
      assert f.payload[..0] + run.st.pb[0..] == run.st.pb;
    }
  }

  lemma KindOf(f: Frame)
    ensures Header(f)[3] == f.kind && Header(f)[4] == f.flags
  {
  }

  function EncodeAll(frames: seq<Frame>): (r: seq<byte>)
  {
    if frames == [] then [] else Encode(frames[0]) + EncodeAll(frames[1..])
  }

  /** Frame by frame: output so far, end of our stream, failure. */
  function Dialogue(sid: nat, accepts: nat -> bool, sent: seq<seq<byte>>, done: bool, pb: seq<byte>, frames: seq<Frame>)
    : (res: (seq<seq<byte>>, bool, bool))
    requires |pb| == 8
    decreases |frames|
  {
    if frames == [] then (sent, done, false)
    else
      var f, pb' := frames[0], EchoBytes(pb, frames[0]);
      var r := React(sid, f.kind, f.flags, f.stream, |f.payload|, pb');
      var p := Perform(accepts, sent, done, r, Ends(sid, f.kind, f.flags, f.stream));
      if p.2 then p else Dialogue(sid, accepts, p.0, p.1, pb', frames[1..])
  }

  /**
   * Any reads that together carry a list of frames produce the replies of those frames in
   * order, up to the first frame that makes the reader give up.
   */
  lemma {:induction false} FramesAnswered(sid: nat, accepts: nat -> bool, run: Run, frames: seq<Frame>, chunks: seq<seq<byte>>)
    requires run.st.Valid() && run.st.fhGot == 0 && !run.failed
    requires Concat(chunks) == EncodeAll(frames)
    ensures var r := FeedAll(sid, accepts, run, chunks);
      (r.sent, r.done, r.failed) == Dialogue(sid, accepts, run.sent, run.done, run.st.pb, frames)
  {
    ChunkingIrrelevant(sid, accepts, run, chunks);
    StreamAnswered(sid, accepts, run, frames);
  }

  lemma {:induction false} StreamAnswered(sid: nat, accepts: nat -> bool, run: Run, frames: seq<Frame>)
    requires run.st.Valid() && run.st.fhGot == 0 && !run.failed
    ensures var r := Feed(sid, accepts, run, EncodeAll(frames));
      (r.sent, r.done, r.failed) == Dialogue(sid, accepts, run.sent, run.done, run.st.pb, frames)
    decreases |frames|
  {
    hide Encode, React, Ends, Perform, EchoBytes, Feed, Reader.Valid;
    if frames == [] {
      FeedEmpty(sid, accepts);
    } else {
      var f, rest := frames[0], EncodeAll(frames[1..]);
      var next := Feed(sid, accepts, run, Encode(f));
      FeedSplits(sid, accepts, run, Encode(f), rest);
      FrameHandled(sid, accepts, run, f);
      PbLength(run.st);
      if next.failed {
        FeedFailed(sid, accepts, next, rest);
      } else {
        StreamAnswered(sid, accepts, next, frames[1..]);
      }
    }
  }

  lemma PbLength(st: Reader)
    requires st.Valid()
    ensures |st.pb| == 8
  {
  }

  // ----- any bytes: whole frames and an unfinished one -----

  predicate Unfinished(b: seq<byte>) {
    |b| < 9 || |b| < 9 + LengthOf(b[..9])
  }

  lemma FieldBounds(fh: seq<byte>)
    requires |fh| == 9
    ensures LengthOf(fh) < 0x100_0000 && StreamOf(fh) < 0x8000_0000
  {
  }

  /** The frame that the bytes begin with. */
  function FrameAt(b: seq<byte>): (f: Frame)
    requires !Unfinished(b)
  {
    FieldBounds(b[..9]);
    RawFrame.Frame(b[3], b[4], b[5] >= 128, StreamOf(b[..9]), b[9..9 + LengthOf(b[..9])])
  }

  function Whole(b: seq<byte>): (frames: seq<Frame>)
    decreases |b|
  {
    if Unfinished(b) then [] else [FrameAt(b)] + Whole(b[9 + LengthOf(b[..9])..])
  }

  function Tail(b: seq<byte>): (t: seq<byte>)
    decreases |b|
  {
    if Unfinished(b) then b else Tail(b[9 + LengthOf(b[..9])..])
  }

  lemma HeaderAt(b: seq<byte>)
    requires !Unfinished(b)
    ensures Header(FrameAt(b)) == b[..9]
  {
    hide Unfinished;
    assert |b| >= 9 by { WholeHeader(b); }
    var fh := b[..9];
    Bytes.JoinWord(0, fh[0], fh[1], fh[2]);
    Bytes.JoinWord(fh[5] % 128, fh[6], fh[7], fh[8]);
    PayloadAt(b);
    TopByte(fh[5]);
  }

  lemma WholeHeader(b: seq<byte>)
    requires !Unfinished(b)
    ensures |b| >= 9 && |b| >= 9 + LengthOf(b[..9])
  {
  }

  lemma PayloadAt(b: seq<byte>)
    requires !Unfinished(b)
    ensures |FrameAt(b).payload| == LengthOf(b[..9])
  {
  }

  lemma TopByte(x: byte)
    ensures x % 128 + (if x >= 128 then 128 else 0) == x
  {
  }

  lemma WholeStep(b: seq<byte>)
    requires !Unfinished(b)
    ensures var n := 9 + LengthOf(b[..9]);
      9 <= n <= |b| && Whole(b) == [FrameAt(b)] + Whole(b[n..]) && Tail(b) == Tail(b[n..])
      && FrameAt(b).payload == b[9..n]
  {
    hide LengthOf, StreamOf;
  }

  /** The first whole frame, and the rest. */
  lemma FirstFrame(b: seq<byte>)
    requires !Unfinished(b)
    ensures var n := 9 + LengthOf(b[..9]);
      9 <= n <= |b| && b == Encode(FrameAt(b)) + b[n..]
      && Whole(b) == [FrameAt(b)] + Whole(b[n..]) && Tail(b) == Tail(b[n..])
  {
    hide Header, LengthOf, StreamOf, Whole, Tail, FrameAt, Unfinished;
    WholeStep(b);
    HeaderAt(b);
    Parts(b, 9, 9 + LengthOf(b[..9]));
  }

  lemma Parts(b: seq<byte>, m: nat, n: nat)
    requires m <= n <= |b|
    ensures b == b[..m] + b[m..n] + b[n..]
  {
  }

  lemma EncodeCons(f: Frame, frames: seq<Frame>)
    ensures EncodeAll([f] + frames) == Encode(f) + EncodeAll(frames)
  {
    hide Encode;
    assert ([f] + frames)[1..] == frames;
  }

  lemma NoFrame(b: seq<byte>)
    requires Unfinished(b)
    ensures b == EncodeAll(Whole(b)) + Tail(b) && Tail(b) == b
  {
    hide LengthOf, Encode;
    assert [] + b == b;
  }

  /** Every sequence of bytes is that of its whole frames, then an unfinished one. */
  lemma {:induction false} WholeAndTail(b: seq<byte>)
    ensures b == EncodeAll(Whole(b)) + Tail(b) && Unfinished(Tail(b))
    decreases |b|
  {
    hide Encode, EncodeAll, Unfinished, LengthOf, Whole, Tail;
    if Unfinished(b) {
      NoFrame(b);
    } else {
      FirstFrame(b);
      var rest := b[9 + LengthOf(b[..9])..];
      var first, frames, tail := Encode(FrameAt(b)), EncodeAll(Whole(rest)), Tail(rest);
      WholeAndTail(rest);
      EncodeCons(FrameAt(b), Whole(rest));
      Associates(first, frames, tail);
    }
  }

  lemma Associates(a: seq<byte>, b: seq<byte>, c: seq<byte>)
    ensures a + (b + c) == a + b + c
  {
  }

  /** An unfinished frame is answered by nothing. */
  lemma TailSilent(sid: nat, accepts: nat -> bool, run: Run, t: seq<byte>)
    requires run.st.Valid() && run.st.fhGot == 0 && !run.failed && Unfinished(t)
    ensures var r := Feed(sid, accepts, run, t); (r.sent, r.done, r.failed) == (run.sent, run.done, false)
  {
    hide Feed, LengthOf, StreamOf, React, Ends;
    if t == [] {
      FeedEmpty(sid, accepts);
    } else if |t| < 9 {
      FeedIsTake(sid, accepts, run, t);
    } else {
      var h, rest := t[..9], t[9..];
      assert t == h + rest;
      FeedSplits(sid, accepts, run, h, rest);
      FeedIsTake(sid, accepts, run, h);
      var st := Take(run.st, h);
      assert [] + h + [] == h && st.fh == h;
      if rest == [] {
        FeedEmpty(sid, accepts);
      } else {
        FeedIsTake(sid, accepts, run.(st := st), rest);
      }
    }
  }

  /**
   * Any reads of any bytes produce the replies of the frames completed, in order, up to the first
   * one that makes the reader give up.
   */
  lemma AnyBytesAnswered(sid: nat, accepts: nat -> bool, run: Run, chunks: seq<seq<byte>>)
    requires run.st.Valid() && run.st.fhGot == 0 && !run.failed
    ensures var r := FeedAll(sid, accepts, run, chunks);
      (r.sent, r.done, r.failed) == Dialogue(sid, accepts, run.sent, run.done, run.st.pb, Whole(Concat(chunks)))
  {
    hide Feed, FeedAll, Dialogue, Whole, Tail, EncodeAll, Unfinished, Reader.Valid;
    var b := Concat(chunks);
    var frames := Whole(b);
    ChunkingIrrelevant(sid, accepts, run, chunks);
    WholeAndTail(b);
    FeedSplits(sid, accepts, run, EncodeAll(frames), Tail(b));
    StreamAnswered(sid, accepts, run, frames);
    PbLength(run.st);
    var mid := Feed(sid, accepts, run, EncodeAll(frames));
    if mid.failed {
      FeedFailed(sid, accepts, mid, Tail(b));
    } else {
      BetweenFrames(sid, accepts, run, frames);
      TailSilent(sid, accepts, mid, Tail(b));
    }
  }

  lemma {:induction false} BetweenFrames(sid: nat, accepts: nat -> bool, run: Run, frames: seq<Frame>)
    requires run.st.Valid() && run.st.fhGot == 0 && !run.failed
    ensures Feed(sid, accepts, run, EncodeAll(frames)).st.fhGot == 0
    decreases |frames|
  {
    hide Encode, React, Ends, Perform, EchoBytes, Feed, Reader.Valid;
    if frames == [] {
      FeedEmpty(sid, accepts);
    } else {
      var f, rest := frames[0], EncodeAll(frames[1..]);
      var next := Feed(sid, accepts, run, Encode(f));
      FeedSplits(sid, accepts, run, Encode(f), rest);
      FrameHandled(sid, accepts, run, f);
      if next.failed {
        FeedFailed(sid, accepts, next, rest);
      } else {
        BetweenFrames(sid, accepts, next, frames[1..]);
      }
    }
  }

  // ----- every kind of frame in bytes: sections 4.1 and 6 of RFC 9113 -----

  /** The four bytes of the stream field; its first bit is reserved. */
  datatype Quad = Quad(s3: byte, s2: byte, s1: byte, s0: byte)
  {
    function Stream(): (n: nat) {
      var a: nat, b: nat, c: nat, d: nat := s3 % 128, s2, s1, s0;
      a * 0x100_0000 + b * 0x1_0000 + c * 0x100 + d
    }
  }

  /** Three bytes of length, kind, flags, four bytes of stream, payload. */
  function Raw(kind: byte, flags: byte, s: Quad, payload: seq<byte>): (bytes: seq<byte>)
    requires |payload| < 0x100_0000
  {
    [|payload| / 0x1_0000, |payload| / 0x100 % 256, |payload| % 256, kind, flags, s.s3, s.s2, s.s1, s.s0] + payload
  }

  function FrameOf(kind: byte, flags: byte, s: Quad, payload: seq<byte>): (f: Frame)
    requires |payload| < 0x100_0000
  {
    RawFrame.Frame(kind, flags, s.s3 >= 128, s.Stream(), payload)
  }

  lemma RawIsEncoded(kind: byte, flags: byte, s: Quad, payload: seq<byte>)
    requires |payload| < 0x100_0000
    ensures Encode(FrameOf(kind, flags, s, payload)) == Raw(kind, flags, s, payload)
  {
    Bytes.JoinWord(s.s3 % 128, s.s2, s.s1, s.s0);
    TopByte(s.s3);
  }

  /** DATA: its length is given back to the connection, if it has one; flag 1 on the own stream ends the response. */
  lemma DataAnswered(sid: nat, accepts: nat -> bool, run: Run, flags: byte, s: Quad, payload: seq<byte>)
    requires run.st.Valid() && run.st.fhGot == 0 && !run.failed && |payload| < 0x100_0000
    ensures var r := Feed(sid, accepts, run, Raw(0, flags, s, payload));
      && (payload == [] ==> r.sent == run.sent && !r.failed)
      && (payload != [] ==>
            && r.sent == run.sent + [[0, 0, 4, 8, 0, 0, 0, 0, 0, 0,
                                      |payload| / 0x1_0000, |payload| / 0x100 % 256, |payload| % 256]]
            && r.failed == !accepts(|run.sent|))
      && (!r.failed ==> r.done == (run.done || (s.Stream() == sid && flags % 2 == 1)))
  {
    hide Feed, Header, LengthOf, StreamOf;
    RawIsEncoded(0, flags, s, payload);
    FrameHandled(sid, accepts, run, FrameOf(0, flags, s, payload));
    SmallLength(|payload|);
  }

  lemma SmallLength(n: nat)
    requires n < 0x100_0000
    ensures n / 0x100_0000 == 0 && n / 0x1_0000 % 256 == n / 0x1_0000
  {
  }

  /** HEADERS: no answer; flag 1 on the own stream ends the response. */
  lemma HeadersAnswered(sid: nat, accepts: nat -> bool, run: Run, flags: byte, s: Quad, payload: seq<byte>)
    requires run.st.Valid() && run.st.fhGot == 0 && !run.failed && |payload| < 0x100_0000
    ensures var r := Feed(sid, accepts, run, Raw(1, flags, s, payload));
      && r.sent == run.sent && !r.failed
      && r.done == (run.done || (s.Stream() == sid && flags % 2 == 1))
  {
    hide Feed, Header, LengthOf, StreamOf;
    RawIsEncoded(1, flags, s, payload);
    FrameHandled(sid, accepts, run, FrameOf(1, flags, s, payload));
  }

  /** RST_STREAM: the own stream's makes the reader give up, another's nothing. */
  lemma ResetAnswered(sid: nat, accepts: nat -> bool, run: Run, flags: byte, s: Quad, payload: seq<byte>)
    requires run.st.Valid() && run.st.fhGot == 0 && !run.failed && |payload| < 0x100_0000
    ensures var r := Feed(sid, accepts, run, Raw(3, flags, s, payload));
      && r.sent == run.sent && r.failed == (s.Stream() == sid)
      && (!r.failed ==> r.done == run.done)
  {
    hide Feed, Header, LengthOf, StreamOf;
    RawIsEncoded(3, flags, s, payload);
    FrameHandled(sid, accepts, run, FrameOf(3, flags, s, payload));
  }

  /** SETTINGS: acknowledged, unless it is itself an acknowledgement. */
  lemma SettingsAnswered(sid: nat, accepts: nat -> bool, run: Run, flags: byte, s: Quad, payload: seq<byte>)
    requires run.st.Valid() && run.st.fhGot == 0 && !run.failed && |payload| < 0x100_0000
    ensures var r := Feed(sid, accepts, run, Raw(4, flags, s, payload));
      && (flags % 2 == 1 ==> r.sent == run.sent && !r.failed)
      && (flags % 2 == 0 ==> r.sent == run.sent + [[0, 0, 0, 4, 1, 0, 0, 0, 0]] && r.failed == !accepts(|run.sent|))
      && (!r.failed ==> r.done == run.done)
  {
    hide Feed, Header, LengthOf, StreamOf;
    RawIsEncoded(4, flags, s, payload);
    FrameHandled(sid, accepts, run, FrameOf(4, flags, s, payload));
  }

  /** PING: its eight bytes come back, unless it is itself an answer. */
  lemma PingAnswered(sid: nat, accepts: nat -> bool, run: Run, flags: byte, s: Quad, payload: seq<byte>)
    requires run.st.Valid() && run.st.fhGot == 0 && !run.failed && |payload| < 0x100_0000
    requires |payload| == 8
    ensures var r := Feed(sid, accepts, run, Raw(6, flags, s, payload));
      && (flags % 2 == 1 ==> r.sent == run.sent && !r.failed)
      && (flags % 2 == 0 ==> r.sent == run.sent + [[0, 0, 8, 6, 1, 0, 0, 0, 0] + payload] && r.failed == !accepts(|run.sent|))
      && (!r.failed ==> r.done == run.done)
  {
    hide Feed, Header, LengthOf, StreamOf;
    RawIsEncoded(6, flags, s, payload);
    FrameHandled(sid, accepts, run, FrameOf(6, flags, s, payload));
    PbLength(run.st);
    EchoIsPayload(run.st.pb, FrameOf(6, flags, s, payload));
  }

  /** GOAWAY: the reader gives up. */
  lemma GoawayAnswered(sid: nat, accepts: nat -> bool, run: Run, flags: byte, s: Quad, payload: seq<byte>)
    requires run.st.Valid() && run.st.fhGot == 0 && !run.failed && |payload| < 0x100_0000
    ensures var r := Feed(sid, accepts, run, Raw(7, flags, s, payload));
      r.sent == run.sent && r.failed
  {
    hide Feed, Header, LengthOf, StreamOf;
    RawIsEncoded(7, flags, s, payload);
    FrameHandled(sid, accepts, run, FrameOf(7, flags, s, payload));
  }

  /** Every other kind: nothing. */
  lemma OthersIgnored(sid: nat, accepts: nat -> bool, run: Run, kind: byte, flags: byte, s: Quad, payload: seq<byte>)
    requires run.st.Valid() && run.st.fhGot == 0 && !run.failed && |payload| < 0x100_0000
    requires kind == 2 || kind == 5 || kind >= 8
    ensures var r := Feed(sid, accepts, run, Raw(kind, flags, s, payload));
      r.sent == run.sent && !r.failed && r.done == run.done
  {
    hide Feed, Header, LengthOf, StreamOf;
    RawIsEncoded(kind, flags, s, payload);
    FrameHandled(sid, accepts, run, FrameOf(kind, flags, s, payload));
  }

  // ----- connection window (section 6.9 of RFC 9113) -----

  /** The increment a sent message returns to the peer's connection window. */
  function Increment(m: seq<byte>): (r: nat) {
    if |m| == 13 && m[3] == WINDOW_UPDATE then
      (m[9] as int) * 0x100_0000 + (m[10] as int) * 0x1_0000 + (m[11] as int) * 256 + m[12]
    else 0
  }

  function Credit(sent: seq<seq<byte>>): (r: nat) {
    if sent == [] then 0 else Credit(sent[..|sent| - 1]) + Increment(sent[|sent| - 1])
  }

  /** Flow-controlled bytes received. */
  function DataBytes(frames: seq<Frame>): (r: nat) {
    if frames == [] then 0
    else (if frames[0].kind == DATA then |frames[0].payload| else 0) + DataBytes(frames[1..])
  }

  lemma ReactionCredit(sid: nat, f: Frame, pb: seq<byte>, sent: seq<seq<byte>>)
    requires |pb| == 8
    ensures var r := React(sid, f.kind, f.flags, f.stream, |f.payload|, pb);
      (if r.Reply? then Increment(r.bytes) else 0) == if f.kind == DATA then |f.payload| else 0
  {
    Bytes.SplitWord(|f.payload|);
  }

  /** Window credit is conserved: every byte of every completed DATA frame is returned, once. */
  lemma {:induction false} CreditConserved(sid: nat, accepts: nat -> bool, sent: seq<seq<byte>>, done: bool, pb: seq<byte>, frames: seq<Frame>)
    requires |pb| == 8
    requires !Dialogue(sid, accepts, sent, done, pb, frames).2
    ensures Credit(Dialogue(sid, accepts, sent, done, pb, frames).0) == Credit(sent) + DataBytes(frames)
    decreases |frames|
  {
    hide React, Ends, EchoBytes;
    if frames != [] {
      var f, pb' := frames[0], EchoBytes(pb, frames[0]);
      var r := React(sid, f.kind, f.flags, f.stream, |f.payload|, pb');
      var p := Perform(accepts, sent, done, r, Ends(sid, f.kind, f.flags, f.stream));
      ReactionCredit(sid, f, pb', sent);
      CreditConserved(sid, accepts, p.0, p.1, pb', frames[1..]);
      if r.Reply? {
        assert (sent + [r.bytes])[..|sent|] == sent;
      }
    }
  }

  /** The same of the reader: over any reads of any bytes, the last frame finished or not. */
  lemma CreditConservedByReads(sid: nat, accepts: nat -> bool, run: Run, chunks: seq<seq<byte>>)
    requires run.st.Valid() && run.st.fhGot == 0 && !run.failed
    ensures var r := FeedAll(sid, accepts, run, chunks);
      !r.failed ==> Credit(r.sent) == Credit(run.sent) + DataBytes(Whole(Concat(chunks)))
  {
    hide FeedAll, Dialogue, Whole, Credit, DataBytes, Reader.Valid;
    var r, frames := FeedAll(sid, accepts, run, chunks), Whole(Concat(chunks));
    PbLength(run.st);
    AnyBytesAnswered(sid, accepts, run, chunks);
    if !r.failed {
      CreditConserved(sid, accepts, run.sent, run.done, run.st.pb, frames);
    }
  }
}
