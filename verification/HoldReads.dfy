/**
 * What the child's counters make of the bytes a slot reads (tools/connhold.c, on_event): the read
 * loop of HoldChild with the results of the two readers in it, over any cutting into reads.
 */
module HoldReads {
  import H = HoldChild
  import One = Http1Reader
  import Two = Http2Reader
  import opened Common

  // ----- HTTP/1.1 -----

  /** What consume returns, read by read, until it is not called again. */
  function Results1(st: One.State, chunks: seq<seq<byte>>): (rs: seq<H.Read>)
    requires st.Valid()
    decreases |chunks|
  {
    if chunks == [] then []
    else
      var (st', r) := One.Consume(st, chunks[0]);
      if r == 0 then [H.Got(0)] + Results1(st', chunks[1..]) else [H.Got(r)]
  }

  /** One of the reads ends after exactly n bytes. */
  predicate CutAt(chunks: seq<seq<byte>>, n: nat) {
    n == 0 || (chunks != [] && |chunks[0]| <= n && CutAt(chunks[1..], n - |chunks[0]|))
  }

  lemma OneRead(cfg: H.Config, p: H.Pair, r: int, rest: seq<H.Read>)
    requires !cfg.h2 && p.slot.state == H.READ
    ensures H.OnRead(cfg, p, [H.Got(r)] + rest) ==
      if r < 0 then H.CloseBroken(p) else if r == 1 then H.Answered(p) else H.OnRead(cfg, p, rest)
  {
    assert ([H.Got(r)] + rest)[1..] == rest;
  }

  lemma NoRead(cfg: H.Config, p: H.Pair)
    ensures H.OnRead(cfg, p, []) == p
  {
  }

  lemma {:induction false} RestOfResponse(
    cfg: H.Config, p: H.Pair, h: seq<byte>, body: seq<byte>, extra: seq<byte>, got: seq<byte>, chunks: seq<seq<byte>>)
    requires !cfg.h2 && p.slot.state == H.READ
    requires One.IsHeader(h) && One.HeaderLength(h) == |body| && (extra == [] || One.StopsInside(h))
    requires |got| < |h| + |body| && got + Concat(chunks) == h + body + extra
    requires forall i :: 0 <= i < |chunks| ==> chunks[i] != []
    ensures One.Standing(h, |body|, got).Valid()
    ensures H.OnRead(cfg, p, Results1(One.Standing(h, |body|, got), chunks)) ==
      if CutAt(chunks, |h| + |body| - |got|) then H.Answered(p) else H.CloseBroken(p)
    decreases |chunks|
  {
    hide One.Standing, One.Consume, One.HeaderLength, One.IsHeader, One.StopsInside, H.OnRead, H.Answered, H.CloseBroken;
    if chunks == [] {
      assert false;
    }
    var c, rest := chunks[0], chunks[1..];
    assert got + Concat(chunks) == (got + c) + Concat(rest);
    PrefixOf(h, body + extra, got + c, Concat(rest));
    assert h + body + extra == h + (body + extra);
    if !One.StopsInside(h) {
      One.NoBodyUnlessStopsInside(h);
      assert |got + c| <= |h|;
    }
    One.ReadOfResponse(h, |body|, got, c);
    var (st', r) := One.Consume(One.Standing(h, |body|, got), c);
    if |got + c| < |h| + |body| {
      RestOfResponse(cfg, p, h, body, extra, got + c, rest);
      OneRead(cfg, p, 0, Results1(st', rest));
    } else {
      assert [H.Got(r)] + [] == [H.Got(r)];
      OneRead(cfg, p, r, []);
    }
  }

  lemma PrefixOf(h: seq<byte>, body: seq<byte>, p: seq<byte>, q: seq<byte>)
    requires p + q == h + body
    ensures if |p| <= |h| then p <= h else h <= p
  {
    assert forall i :: 0 <= i < |p| ==> p[i] == (h + body)[i];
  }

  /** Bytes read, none of them empty reads. */
  predicate Reads(chunks: seq<seq<byte>>, data: seq<byte>) {
    Concat(chunks) == data && forall i :: 0 <= i < |chunks| ==> chunks[i] != []
  }

  /**
   * A response and whatever comes behind it: counted, and the slot left idle, exactly when a read
   * ends with the response; otherwise the connection is closed and the response not counted.
   */
  lemma ResponseCounted(
    cfg: H.Config, p: H.Pair, h: seq<byte>, body: seq<byte>, extra: seq<byte>, chunks: seq<seq<byte>>)
    requires !cfg.h2 && p.slot.state == H.READ
    requires One.IsHeader(h) && One.HeaderLength(h) == |body| && (extra == [] || One.StopsInside(h))
    requires Reads(chunks, h + body + extra)
    ensures H.OnRead(cfg, p, Results1(One.Fresh, chunks)) ==
      if CutAt(chunks, |h| + |body|) then H.Answered(p) else H.CloseBroken(p)
  {
    hide One.Consume, One.HeaderLength, One.IsHeader, One.StopsInside, H.OnRead, H.Answered, H.CloseBroken;
    One.HeaderNotEmpty(h);
    assert [] + Concat(chunks) == h + body + extra;
    RestOfResponse(cfg, p, h, body, extra, [], chunks);
  }

  lemma {:induction false} CutAtEnd(chunks: seq<seq<byte>>)
    ensures CutAt(chunks, |Concat(chunks)|)
    decreases |chunks|
  {
    if chunks != [] {
      CutAtEnd(chunks[1..]);
    }
  }

  lemma OutcomesDiffer(p: H.Pair)
    ensures H.Answered(p) != H.CloseBroken(p)
  {
  }

  /** So what is counted is independent of the cutting if and only if nothing comes behind the response. */
  lemma CountIndependentIff1(cfg: H.Config, p: H.Pair, h: seq<byte>, body: seq<byte>, extra: seq<byte>)
    requires !cfg.h2 && p.slot.state == H.READ
    requires One.IsHeader(h) && One.HeaderLength(h) == |body| && (extra == [] || One.StopsInside(h))
    ensures (forall a: seq<seq<byte>>, b: seq<seq<byte>> :: Reads(a, h + body + extra) && Reads(b, h + body + extra) ==>
               H.OnRead(cfg, p, Results1(One.Fresh, a)) == H.OnRead(cfg, p, Results1(One.Fresh, b)))
      <==> extra == []
  {
    hide One.HeaderLength, One.IsHeader, One.StopsInside, H.OnRead, H.Answered, H.CloseBroken, Results1;
    var w := h + body + extra;
    One.HeaderNotEmpty(h);
    if extra == [] {
      forall chunks: seq<seq<byte>> | Reads(chunks, w)
        ensures H.OnRead(cfg, p, Results1(One.Fresh, chunks)) == H.Answered(p)
      {
        ResponseCounted(cfg, p, h, body, extra, chunks);
        CutAtEnd(chunks);
      }
    } else {
      var apart := [h + body, extra];
      ConcatOne(w);
      ConcatTwo(h + body, extra);
      assert Reads([w], w) && Reads(apart, w);
      ResponseCounted(cfg, p, h, body, extra, [w]);
      ResponseCounted(cfg, p, h, body, extra, apart);
      OutcomesDiffer(p);
    }
  }

  lemma ConcatOne(w: seq<byte>)
    ensures Concat([w]) == w
  {
    assert [w][1..] == [];
    assert w + [] == w;
  }

  /** What an idle slot reads over HTTP/1.1 changes nothing. */
  lemma {:induction false} IdleIgnores(cfg: H.Config, p: H.Pair, rs: seq<H.Read>)
    requires !cfg.h2 && p.slot.state == H.IDLE && forall i :: 0 <= i < |rs| ==> rs[i].Got?
    ensures H.OnRead(cfg, p, rs) == p
    decreases |rs|
  {
    if rs != [] {
      IdleIgnores(cfg, p, rs[1..]);
    }
  }

  // ----- HTTP/2 -----

  /** What consume_h2 returns, read by read, until it fails. */
  function Results2(sid: nat, accepts: nat -> bool, st: Two.Reader, sent: seq<seq<byte>>, chunks: seq<seq<byte>>)
    : (rs: seq<H.Read>)
    requires st.Valid()
    decreases |chunks|
  {
    if chunks == [] then []
    else
      var run := Two.Feed(sid, accepts, Two.Start(st, sent), chunks[0]);
      [H.Got(Two.Outcome(run))] + if run.failed then [] else Results2(sid, accepts, run.st, run.sent, chunks[1..])
  }

  /** Some read returns 1. */
  predicate ReadDone(sid: nat, accepts: nat -> bool, st: Two.Reader, sent: seq<seq<byte>>, chunks: seq<seq<byte>>)
    requires st.Valid()
    decreases |chunks|
  {
    chunks != [] &&
    var run := Two.Feed(sid, accepts, Two.Start(st, sent), chunks[0]);
    !run.failed && (run.done || ReadDone(sid, accepts, run.st, run.sent, chunks[1..]))
  }

  lemma OneRead2(cfg: H.Config, p: H.Pair, r: int, rest: seq<H.Read>)
    requires cfg.h2 && (p.slot.state == H.READ || p.slot.state == H.IDLE)
    ensures H.OnRead(cfg, p, [H.Got(r)] + rest) ==
      if r < 0 then H.CloseBroken(p)
      else if p.slot.state == H.IDLE || r == 0 then H.OnRead(cfg, p, rest) else H.OnRead(cfg, H.Answered(p), rest)
  {
    assert ([H.Got(r)] + rest)[1..] == rest;
  }

  lemma AnsweredIdles(p: H.Pair)
    ensures H.Answered(p).slot.state == H.IDLE
  {
  }

  function Counted(p: H.Pair, done: bool, failed: bool): (q: H.Pair) {
    var a := if p.slot.state == H.READ && done then H.Answered(p) else p;
    if failed then H.CloseBroken(a) else a
  }

  /**
   * Over any reads: the response is counted exactly when some read returns 1 before the reader
   * gives up, and the connection is closed exactly when the reader gives up on the whole.
   */
  lemma {:induction false} StreamCounted(
    cfg: H.Config, p: H.Pair, sid: nat, accepts: nat -> bool, st: Two.Reader, sent: seq<seq<byte>>, chunks: seq<seq<byte>>)
    requires cfg.h2 && (p.slot.state == H.READ || p.slot.state == H.IDLE) && st.Valid()
    ensures var whole := Two.Feed(sid, accepts, Two.Start(st, sent), Concat(chunks));
      && H.OnRead(cfg, p, Results2(sid, accepts, st, sent, chunks))
         == Counted(p, ReadDone(sid, accepts, st, sent, chunks), whole.failed)
      && (!whole.failed ==> (ReadDone(sid, accepts, st, sent, chunks) <==> whole.done))
    decreases |chunks|
  {
    hide Two.Feed, H.OnRead, H.Answered, H.CloseBroken, Two.Reader.Valid;
    Two.FeedEmpty(sid, accepts);
    AnsweredIdles(p);
    if chunks == [] {
      NoRead(cfg, p);
    } else {
      var c, rest := chunks[0], chunks[1..];
      var run := Two.Feed(sid, accepts, Two.Start(st, sent), c);
      Two.SplitIndependence(sid, accepts, st, sent, c, Concat(rest));
      if run.failed {
        OneRead2(cfg, p, -1, []);
      } else {
        var q := if p.slot.state == H.READ && run.done then H.Answered(p) else p;
        OneRead2(cfg, p, Two.Outcome(run), Results2(sid, accepts, run.st, run.sent, rest));
        StreamCounted(cfg, q, sid, accepts, run.st, run.sent, rest);
      }
    }
  }

  /** The first n bytes alone complete the response. */
  predicate DoneAt(sid: nat, accepts: nat -> bool, st: Two.Reader, sent: seq<seq<byte>>, data: seq<byte>, n: nat)
    requires st.Valid()
  {
    n <= |data| && Two.Outcome(Two.Feed(sid, accepts, Two.Start(st, sent), data[..n])) == 1
  }

  lemma {:induction false} ReadDonePrefix(
    sid: nat, accepts: nat -> bool, st: Two.Reader, sent: seq<seq<byte>>, chunks: seq<seq<byte>>) returns (n: nat)
    requires st.Valid() && ReadDone(sid, accepts, st, sent, chunks)
    ensures DoneAt(sid, accepts, st, sent, Concat(chunks), n)
    decreases |chunks|
  {
    hide Two.Feed, Two.Reader.Valid;
    var c, rest := chunks[0], Concat(chunks[1..]);
    var run := Two.Feed(sid, accepts, Two.Start(st, sent), c);
    if run.done {
      n := |c|;
      assert (c + rest)[..n] == c;
    } else {
      var m := ReadDonePrefix(sid, accepts, run.st, run.sent, chunks[1..]);
      n := |c| + m;
      Two.SplitIndependence(sid, accepts, st, sent, c, rest[..m]);
      assert (c + rest)[..n] == c + rest[..m];
    }
  }

  lemma CountsDiffer(p: H.Pair)
    requires p.slot.state == H.READ
    ensures Counted(p, true, true) != Counted(p, false, true)
  {
  }

  /**
   * So what is counted is independent of the cutting if and only if the reader does not give up on
   * bytes some of whose beginnings complete the response.
   */
  lemma CountIndependentIff2(
    cfg: H.Config, p: H.Pair, sid: nat, accepts: nat -> bool, st: Two.Reader, sent: seq<seq<byte>>, data: seq<byte>)
    requires cfg.h2 && p.slot.state == H.READ && st.Valid()
    ensures var whole := Two.Feed(sid, accepts, Two.Start(st, sent), data);
      (forall chunks: seq<seq<byte>> :: Concat(chunks) == data ==>
         H.OnRead(cfg, p, Results2(sid, accepts, st, sent, chunks))
         == H.OnRead(cfg, p, Results2(sid, accepts, st, sent, [data])))
      <==> !(whole.failed && exists n: nat :: DoneAt(sid, accepts, st, sent, data, n))
  {
    hide Two.Feed, H.OnRead, Results2, Counted, Two.Reader.Valid, ReadDone;
    var whole := Two.Feed(sid, accepts, Two.Start(st, sent), data);
    ConcatOne(data);
    StreamCounted(cfg, p, sid, accepts, st, sent, [data]);
    ReadDoneOfOne(sid, accepts, st, sent, data);
    if whole.failed && exists n: nat :: DoneAt(sid, accepts, st, sent, data, n) {
      var n: nat :| DoneAt(sid, accepts, st, sent, data, n);
      var chunks := [data[..n], data[n..]];
      ConcatTwo(data[..n], data[n..]);
      assert data[..n] + data[n..] == data;
      StreamCounted(cfg, p, sid, accepts, st, sent, chunks);
      ReadDoneOfFirst(sid, accepts, st, sent, data[..n], data[n..]);
      CountsDiffer(p);
    } else {
      forall chunks: seq<seq<byte>> | Concat(chunks) == data
        ensures H.OnRead(cfg, p, Results2(sid, accepts, st, sent, chunks))
             == H.OnRead(cfg, p, Results2(sid, accepts, st, sent, [data]))
      {
        StreamCounted(cfg, p, sid, accepts, st, sent, chunks);
        if whole.failed && ReadDone(sid, accepts, st, sent, chunks) {
          var n := ReadDonePrefix(sid, accepts, st, sent, chunks);
        }
      }
    }
  }

  lemma ConcatTwo(a: seq<byte>, b: seq<byte>)
    ensures Concat([a, b]) == a + b
  {
    assert [a, b][1..] == [b];
    ConcatOne(b);
  }

  lemma ReadDoneOfOne(sid: nat, accepts: nat -> bool, st: Two.Reader, sent: seq<seq<byte>>, data: seq<byte>)
    requires st.Valid()
    ensures Two.Feed(sid, accepts, Two.Start(st, sent), data).failed ==> !ReadDone(sid, accepts, st, sent, [data])
  {
    hide Two.Feed, Two.Reader.Valid;
  }

  lemma ReadDoneOfFirst(sid: nat, accepts: nat -> bool, st: Two.Reader, sent: seq<seq<byte>>, a: seq<byte>, b: seq<byte>)
    requires st.Valid() && Two.Outcome(Two.Feed(sid, accepts, Two.Start(st, sent), a)) == 1
    ensures ReadDone(sid, accepts, st, sent, [a, b])
  {
    hide Two.Feed, Two.Reader.Valid;
  }
}
