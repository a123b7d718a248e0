/**
 * The incremental HTTP/1.1 response reader of tools/connhold.c (consume): a header
 * buffer searched with the C string functions, then a counted body.
 */
module Http1Reader {
  import opened Common

  const CR: byte := 13
  const LF: byte := 10
  const CRLF: seq<byte> := [CR, LF]
  const END: seq<byte> := [CR, LF, CR, LF]
  const ROOM := 16383
  const LONG_MAX := 0x7fff_ffff_ffff_ffff

  // ----- strstr, strncasecmp and strtol on a NUL-terminated buffer -----

  /** Offset of the first match before the first NUL, or -1. */
  function StrStr(s: seq<byte>, pat: seq<byte>): (r: int)
    ensures r == -1 || 0 <= r <= |s| - |pat|
  {
    if pat <= s then 0
    else if s == [] || s[0] == 0 then -1
    else
      var r := StrStr(s[1..], pat);
      if r < 0 then -1 else r + 1
  }

  lemma {:induction false} StrStrFound(s: seq<byte>, pat: seq<byte>)
    requires StrStr(s, pat) >= 0
    ensures s[StrStr(s, pat)..StrStr(s, pat) + |pat|] == pat
    decreases |s|
  {
    if !(pat <= s) {
      StrStrFound(s[1..], pat);
    }
  }

  lemma CrlfFound(s: seq<byte>)
    requires StrStr(s, CRLF) >= 0
    ensures StrStr(s, CRLF) + 2 <= |s| && s[StrStr(s, CRLF)] == CR
  {
    StrStrFound(s, CRLF);
    assert s[StrStr(s, CRLF)] == CRLF[0];
  }

  function Lower(b: byte): (r: byte) {
    if 65 <= b <= 90 then b + 32 else b
  }

  /** "content-length:" */
  const NAME: seq<byte> := [99, 111, 110, 116, 101, 110, 116, 45, 108, 101, 110, 103, 116, 104, 58]

  predicate StartsWithName(s: seq<byte>) {
    |s| >= 15 && forall i :: 0 <= i < 15 ==> Lower(s[i]) == NAME[i]
  }

  predicate IsSpace(b: byte) {
    b == 32 || 9 <= b <= 13
  }

  predicate IsDigit(b: byte) {
    48 <= b <= 57
  }

  function SkipSpace(s: seq<byte>): (r: seq<byte>) {
    if s != [] && IsSpace(s[0]) then SkipSpace(s[1..]) else s
  }

  /** The digits at the front of s, added to what has been read. */
  function Digits(s: seq<byte>, acc: nat): (r: nat) {
    if s != [] && IsDigit(s[0]) then Digits(s[1..], acc * 10 + (s[0] as int - 48)) else acc
  }

  function StrToL(s: seq<byte>): (r: int) {
    var t := SkipSpace(s);
    if t != [] && t[0] == 45 then
      var n: int := Digits(t[1..], 0); if n > LONG_MAX + 1 then -LONG_MAX - 1 else -n
    else
      var n := Digits(if t != [] && t[0] == 43 then t[1..] else t, 0); if n > LONG_MAX then LONG_MAX else n
  }

  // ----- the header -----

  /** The scan for the field: offset of its value in h, or -1; `p` walks from line end to line end. */
  function ValueAt(h: seq<byte>, p: nat, end: nat): (v: int)
    requires p <= |h|
    ensures -1 <= v <= |h|
    decreases |h| - p
  {
    if p >= end || p == |h| then -1
    else
      var q := if h[p] == CR then if p + 2 <= |h| then p + 2 else |h| else p;
      if StartsWithName(h[q..]) then q + 15
      else
        var next := StrStr(h[q..], CRLF);
        if next < 0 then -1
        else
          CrlfFound(h[q..]);
          ValueAt(h, q + next, end)
  }

  /** The response's Content-Length as the reader computes it from its buffer, or -1. */
  function HeaderLength(h: seq<byte>): (r: int) {
    var e := StrStr(h, END);
    var v := if e < 0 then -1 else ValueAt(h, 0, e);
    if v < 0 then -1 else StrToL(h[v..])
  }

  // ----- the reader -----

  datatype State = Fresh | Header(bytes: seq<byte>) | Body(left: nat)
  {
    predicate Valid() {
      Header? ==> |bytes| <= ROOM && StrStr(bytes, END) < 0
    }
  }

  function TakeBody(left: nat, data: seq<byte>): (res: (State, int)) {
    var eat := Min(left, |data|);
    if eat == left then (Fresh, if eat == |data| then 1 else -1) else (Body(left - eat), 0)
  }

  /** One call of consume, given that its allocation succeeds. */
  function Consume(st: State, data: seq<byte>): (res: (State, int))
    requires st.Valid()
    ensures res.1 >= 0 ==> res.0.Valid()
    decreases |data|
  {
    if data == [] then (st, 0)
    else if st.Body? then TakeBody(st.left, data)
    else
      var h := if st.Header? then st.bytes else [];
      var take := Min(|data|, ROOM - |h|);
      var h' := h + data[..take];
      var e := StrStr(h', END);
      if take == 0 then (st, -1)
      else if e < 0 then Consume(Header(h'), data[take..])
      else
        var cl := HeaderLength(h');
        if cl < 0 then (Header(h'), -1)
        else
          EndIsNew(h, data[..take]);
          TakeBody(cl, data[take - (|h'| - (e + 4))..])
  }

  lemma {:induction false} StrStrExtend(s: seq<byte>, x: seq<byte>, pat: seq<byte>)
    requires StrStr(s, pat) >= 0
    ensures StrStr(s + x, pat) == StrStr(s, pat)
    decreases |s|
  {
    if pat <= s {
      assert pat <= s + x;
    } else {
      assert (s + x)[1..] == s[1..] + x;
      StrStrExtend(s[1..], x, pat);
    }
  }

  /** Nothing is found in a prefix that stops before the end of the first match. */
  lemma {:induction false} StrStrCut(s: seq<byte>, n: nat, pat: seq<byte>)
    requires n <= |s| && StrStr(s, pat) >= 0 && n < StrStr(s, pat) + |pat|
    ensures StrStr(s[..n], pat) < 0
    decreases |s|
  {
    hide StrStr;
    var t := s[..n];
    assert t + s[n..] == s;
    if StrStr(t, pat) >= 0 {
      StrStrExtend(t, s[n..], pat);
    }
  }

  /** If the buffer had no header end, one found after appending ends in the new bytes. */
  lemma EndIsNew(h: seq<byte>, d: seq<byte>)
    requires StrStr(h, END) < 0 && StrStr(h + d, END) >= 0
    ensures StrStr(h + d, END) + 4 > |h|
  {
    hide StrStr;
    assert (h + d)[..|h|] == h;
    if StrStr(h + d, END) + 4 <= |h| {
      FoundInPrefix(h + d, |h|);
    }
  }

  lemma {:induction false} FoundInPrefix(s: seq<byte>, n: nat)
    requires StrStr(s, END) >= 0 && StrStr(s, END) + 4 <= n <= |s|
    ensures StrStr(s[..n], END) == StrStr(s, END)
    decreases |s|
  {
    if END <= s {
      assert END <= s[..n];
    } else {
      FoundInPrefix(s[1..], n - 1);
      assert s[..n][1..] == s[1..][..n - 1];
    }
  }

  // ----- the length field does not depend on what else is in the buffer -----

  /** A header block: it fits the buffer and its first blank line is at its end. */
  ghost predicate IsHeader(h: seq<byte>) {
    |h| <= ROOM && StrStr(h, END) >= 0 && StrStr(h, END) == |h| - 4
  }

  /** There is a length field and strtol, reading its value, stops inside the header. */
  ghost predicate StopsInside(h: seq<byte>)
    requires IsHeader(h)
  {
    var v := ValueAt(h, 0, |h| - 4);
    v >= 0 && SkipSpace(h[v..]) != []
  }

  lemma {:induction false} StrStrSuffix(s: seq<byte>, q: nat, pat: seq<byte>)
    requires StrStr(s, pat) >= 0 && q <= StrStr(s, pat)
    ensures StrStr(s[q..], pat) == StrStr(s, pat) - q
  {
    if q > 0 {
      StrStrSuffix(s[1..], q - 1, pat);
      assert s[1..][q - 1..] == s[q..];
    }
  }

  lemma {:induction false} EndHasCrlf(s: seq<byte>)
    requires StrStr(s, END) >= 0
    ensures 0 <= StrStr(s, CRLF)
    decreases |s|
  {
    if END <= s {
      assert CRLF == s[..2];
    } else {
      EndHasCrlf(s[1..]);
    }
  }

  /** Every line of a header is followed by a line end inside the header. */
  lemma LineEndInside(h: seq<byte>, q: nat)
    requires IsHeader(h) && q <= |h| - 3
    ensures StrStr(h[q..], CRLF) >= 0
  {
    var e := |h| - 4;
    if q <= e {
      StrStrSuffix(h, q, END);
      EndHasCrlf(h[q..]);
    } else {
      var t := h[q..];
      StrStrFound(h, END);
      assert t == h[e..e + 4][1..] == [LF, CR, LF];
      assert t[1..] == CRLF;
    }
  }

  lemma NameInside(h: seq<byte>, x: seq<byte>, q: nat)
    requires IsHeader(h) && q <= |h| - 3
    ensures StartsWithName((h + x)[q..]) == StartsWithName(h[q..])
  {
    var e := |h| - 4;
    StrStrFound(h, END);
    assert h[e] == END[0] && h[e + 1] == END[1];
    var a, b := (h + x)[q..], h[q..];
    assert forall i :: 0 <= i < |b| ==> a[i] == b[i];
    var stop := if q <= e then e - q else 0;
    if stop < 15 {
      assert b[stop] == CR || b[stop] == LF;
      assert Lower(b[stop]) != NAME[stop];
    }
  }

  lemma {:induction false} ValueAtExtend(h: seq<byte>, x: seq<byte>, p: nat)
    requires IsHeader(h) && p <= |h|
    ensures ValueAt(h + x, p, |h| - 4) == ValueAt(h, p, |h| - 4)
    decreases |h| - p
  {
    hide StartsWithName, StrStr;
    var end := |h| - 4;
    if p < end {
      var q := if h[p] == CR then p + 2 else p;
      NameInside(h, x, q);
      LineEndInside(h, q);
      assert (h + x)[q..] == h[q..] + x;
      StrStrExtend(h[q..], x, CRLF);
      if !StartsWithName(h[q..]) {
        var next := StrStr(h[q..], CRLF);
        CrlfFound(h[q..]);
        ValueAtExtend(h, x, q + next);
      }
    }
  }

  lemma {:induction false} SkipSpaceExtend(s: seq<byte>, x: seq<byte>)
    requires SkipSpace(s) != []
    ensures SkipSpace(s + x) == SkipSpace(s) + x
    decreases |s|
  {
    if IsSpace(s[0]) {
      assert (s + x)[1..] == s[1..] + x;
      SkipSpaceExtend(s[1..], x);
    }
  }

  lemma {:induction false} SkipSpaceTail(s: seq<byte>)
    requires SkipSpace(s) != []
    ensures |SkipSpace(s)| <= |s| && SkipSpace(s)[|SkipSpace(s)| - 1] == s[|s| - 1]
    ensures !IsSpace(SkipSpace(s)[0])
    decreases |s|
  {
    if IsSpace(s[0]) {
      SkipSpaceTail(s[1..]);
    }
  }

  lemma {:induction false} DigitsExtend(s: seq<byte>, x: seq<byte>, acc: nat)
    requires s != [] && !IsDigit(s[|s| - 1])
    ensures Digits(s + x, acc) == Digits(s, acc)
    decreases |s|
  {
    if IsDigit(s[0]) {
      assert (s + x)[1..] == s[1..] + x;
      DigitsExtend(s[1..], x, acc * 10 + (s[0] as int - 48));
    }
  }

  lemma StrToLExtend(s: seq<byte>, x: seq<byte>)
    requires s != [] && s[|s| - 1] == LF && SkipSpace(s) != []
    ensures StrToL(s + x) == StrToL(s)
  {
    hide Digits, SkipSpace;
    var t := SkipSpace(s);
    SkipSpaceExtend(s, x);
    SkipSpaceTail(s);
    assert t[|t| - 1] == LF && (t + x)[1..] == t[1..] + x;
    DigitsExtend(t, x, 0);
    if |t| > 1 {
      assert t[1..][|t| - 2] == LF;
      DigitsExtend(t[1..], x, 0);
    }
  }

  lemma EndsWithLf(h: seq<byte>)
    requires IsHeader(h)
    ensures h[|h| - 1] == LF
  {
    StrStrFound(h, END);
    assert h[|h| - 4..][3] == END[3];
  }

  /** With a real value the length is that of the header alone, whatever body bytes came along. */
  lemma HeaderLengthExtend(h: seq<byte>, x: seq<byte>)
    requires IsHeader(h) && StopsInside(h)
    ensures HeaderLength(h + x) == HeaderLength(h)
  {
    hide StrStr, ValueAt, StrToL, SkipSpace;
    StrStrExtend(h, x, END);
    ValueAtExtend(h, x, 0);
    var v := ValueAt(h, 0, |h| - 4);
    assert (h + x)[v..] == h[v..] + x;
    EndsWithLf(h);
    NonEmptyValue(h[v..]);
    StrToLExtend(h[v..], x);
  }

  lemma NonEmptyValue(s: seq<byte>)
    requires SkipSpace(s) != []
    ensures s != []
  {
  }

  lemma {:induction false} SkipAll(s: seq<byte>, x: seq<byte>)
    requires SkipSpace(s) == []
    ensures SkipSpace(s + x) == SkipSpace(x)
    decreases |s|
  {
    if s == [] {
      assert s + x == x;
    } else {
      assert (s + x)[1..] == s[1..] + x;
      SkipAll(s[1..], x);
    }
  }

  /**
   * With nothing but white space from its value to the end of the header, a field's number is read
   * from whatever stands behind the header. Only then does that matter.
   */
  lemma LengthSettledIffStopsInside(h: seq<byte>)
    requires IsHeader(h) && ValueAt(h, 0, |h| - 4) >= 0
    ensures StopsInside(h) <==> forall x: seq<byte> :: HeaderLength(h + x) == HeaderLength(h)
  {
    if StopsInside(h) {
      forall x: seq<byte>
        ensures HeaderLength(h + x) == HeaderLength(h)
      {
        HeaderLengthExtend(h, x);
      }
    } else {
      OneDigit();
      assert h + [] == h;
      BlankReadsOn(h, []);
      BlankReadsOn(h, [49]);
      assert HeaderLength(h + [49]) != HeaderLength(h);
    }
  }

  lemma NoBodyUnlessStopsInside(h: seq<byte>)
    requires IsHeader(h) && !StopsInside(h)
    ensures HeaderLength(h) <= 0
  {
    hide StrStr, ValueAt;
  }

  /** Then the length is the number that the bytes behind the header start with. */
  lemma BlankReadsOn(h: seq<byte>, x: seq<byte>)
    requires IsHeader(h) && ValueAt(h, 0, |h| - 4) >= 0 && !StopsInside(h)
    ensures HeaderLength(h + x) == StrToL(x)
  {
    hide StrStr, ValueAt, StrToL;
    var v := ValueAt(h, 0, |h| - 4);
    StrStrExtend(h, x, END);
    ValueAtExtend(h, x, 0);
    SkipAll(h[v..], x);
    assert (h + x)[v..] == h[v..] + x;
    SameNumber(h[v..] + x, x);
  }

  lemma OneDigit()
    ensures StrToL([49]) == 1 && StrToL([]) == 0
  {
    var x: seq<byte> := [49];
    assert x[1..] == [];
    assert Digits(x, 0) == 1;
  }

  // ----- any split of one response -----

  /** Where the reader stands after `got` bytes of a response with this header and body length. */
  function Standing(h: seq<byte>, body: nat, got: seq<byte>): (r: State)
    requires |got| < |h| + body
  {
    if got == [] then Fresh else if |got| < |h| then Header(got) else Body(|h| + body - |got|)
  }

  /**
   * One read of a response: 0 before its last byte, 1 exactly there with the slot ready for
   * the next response, -1 when the read goes past it. Only for a read past the header must the
   * length be one that strtol found inside it.
   */
  lemma ReadOfResponse(h: seq<byte>, body: nat, got: seq<byte>, c: seq<byte>)
    requires IsHeader(h) && HeaderLength(h) == body
    requires |got + c| <= |h| || StopsInside(h)
    requires |got| < |h| + body && c != []
    requires if |got + c| <= |h| then got + c <= h else h <= got + c
    ensures Standing(h, body, got).Valid()
    ensures Consume(Standing(h, body, got), c) ==
      if |got + c| < |h| + body then (Standing(h, body, got + c), 0)
      else (Fresh, if |got + c| == |h| + body then 1 else -1)
  {
    hide StrStr, HeaderLength, Consume, TakeBody;
    if |got| >= |h| {
      ConsumeStep(Standing(h, body, got), c);
      TakenBody(|h| + body - |got|, c);
    } else {
      HeaderPart(h, got, c);
      NothingInNothing();
      if |got + c| < |h| {
        ReadInHeader(h, body, got, c);
      } else {
        ReadOverHeader(h, body, got, c);
      }
    }
  }

  lemma TakenBody(left: nat, data: seq<byte>)
    ensures TakeBody(left, data) ==
      if |data| < left then (Body(left - |data|), 0) else (Fresh, if |data| == left then 1 else -1)
  {
  }

  lemma ReadInHeader(h: seq<byte>, body: nat, got: seq<byte>, c: seq<byte>)
    requires IsHeader(h) && |got + c| < |h| && c != []
    requires StrStr(got, END) < 0 && StrStr(got + c, END) < 0
    ensures Standing(h, body, got).Valid()
    ensures Consume(Standing(h, body, got), c) == (Header(got + c), 0)
  {
    hide StrStr, HeaderLength, Consume;
    var take := Min(|c|, ROOM - |got|);
    NothingInNothing();
    ConsumeStep(Standing(h, body, got), c);
    assert [] + c == c;
    assert got + c[..take] == got + c && c[take..] == [];
    ConsumeNothing(Header(got + c));
  }

  lemma ReadOverHeader(h: seq<byte>, body: nat, got: seq<byte>, c: seq<byte>)
    requires IsHeader(h) && HeaderLength(h) == body && |got| < |h| <= |got + c| && h <= got + c && c != []
    requires |got + c| <= |h| || StopsInside(h)
    requires StrStr(got, END) < 0
    ensures Standing(h, body, got).Valid()
    ensures Consume(Standing(h, body, got), c) ==
      if |got + c| < |h| + body then (Body(|h| + body - |got + c|), 0)
      else (Fresh, if |got + c| == |h| + body then 1 else -1)
  {
    hide StrStr, HeaderLength, Consume, TakeBody, IsHeader, StopsInside;
    HeaderRoom(h);
    var take := Min(|c|, ROOM - |got|);
    NothingInNothing();
    ConsumeStep(Standing(h, body, got), c);
    BufferHoldsHeader(h, got, c, take);
    TakenBody(body, c[|h| - |got|..]);
  }

  lemma HeaderRoom(h: seq<byte>)
    requires IsHeader(h)
    ensures 4 <= |h| <= ROOM
  {
  }

  /** Before the end of the header nothing in the buffer matches. */
  lemma HeaderPart(h: seq<byte>, got: seq<byte>, c: seq<byte>)
    requires IsHeader(h) && |got| < |h|
    requires if |got + c| <= |h| then got + c <= h else h <= got + c
    ensures StrStr(got, END) < 0
    ensures |got + c| < |h| ==> StrStr(got + c, END) < 0
  {
    hide StrStr;
    assert forall i :: 0 <= i < |got| ==> got[i] == (got + c)[i] == h[i];
    assert got == h[..|got|];
    StrStrCut(h, |got|, END);
    if |got + c| < |h| {
      assert got + c == h[..|got + c|];
      StrStrCut(h, |got + c|, END);
    }
  }

  /** Once it has arrived, the match is the end of the header and the length is the header's. */
  lemma BufferHoldsHeader(h: seq<byte>, got: seq<byte>, c: seq<byte>, take: nat)
    requires IsHeader(h) && |got| < |h| && take <= |c| && h <= got + c && |h| <= |got| + take
    requires |got + c| <= |h| || StopsInside(h)
    ensures StrStr(got + c[..take], END) == |h| - 4
    ensures HeaderLength(got + c[..take]) == HeaderLength(h)
  {
    hide StrStr, HeaderLength;
    var h' := got + c[..take];
    assert forall i :: 0 <= i < |h| ==> h'[i] == (got + c)[i] == h[i];
    assert h' == h + h'[|h|..];
    StrStrExtend(h, h'[|h|..], END);
    if h' != h {
      HeaderLengthExtend(h, h'[|h|..]);
    }
  }

  lemma NothingInNothing()
    ensures StrStr([], END) < 0
  {
  }

  lemma ConsumeNothing(st: State)
    requires st.Valid()
    ensures Consume(st, []) == (st, 0)
  {
  }

  /** Results of successive reads. */
  function Reads(st: State, chunks: seq<seq<byte>>): (res: (State, seq<int>))
    requires st.Valid()
    decreases |chunks|
  {
    if chunks == [] then (st, [])
    else
      var (st', r) := Consume(st, chunks[0]);
      if r < 0 then (st', [r]) else var (last, rs) := Reads(st', chunks[1..]); (last, [r] + rs)
  }

  lemma NoReadsLeft(chunks: seq<seq<byte>>)
    requires Concat(chunks) == [] && forall i :: 0 <= i < |chunks| ==> chunks[i] != []
    ensures chunks == []
  {
  }

  /** The remaining reads of a response: zeros, then a single 1 at its last byte. */
  lemma {:induction false} ReadsFinish(h: seq<byte>, body: seq<byte>, got: seq<byte>, chunks: seq<seq<byte>>)
    requires IsHeader(h) && HeaderLength(h) == |body|
    requires |got| < |h| + |body| && got + Concat(chunks) == h + body
    requires forall i :: 0 <= i < |chunks| ==> chunks[i] != []
    ensures Standing(h, |body|, got).Valid()
    ensures chunks != []
    ensures Reads(Standing(h, |body|, got), chunks) == (Fresh, seq(|chunks| - 1, i => 0) + [1])
    decreases |chunks|
  {
    hide StrStr, HeaderLength, Consume, Standing;
    if chunks == [] {
      assert false;
    }
    var c, rest := chunks[0], chunks[1..];
    assert got + Concat(chunks) == (got + c) + Concat(rest);
    PrefixOf(h, body, got + c, Concat(rest));
    if !StopsInside(h) {
      NoBodyUnlessStopsInside(h);
    }
    ReadOfResponse(h, |body|, got, c);
    if |got + c| < |h| + |body| {
      ReadsFinish(h, body, got + c, rest);
      assert [0] + (seq(|rest| - 1, i => 0) + [1]) == seq(|chunks| - 1, i => 0) + [1];
    } else {
      NoReadsLeft(rest);
      assert seq(0, i => 0) + [1] == [1];
      assert [1] + [] == [1];
    }
  }

  lemma PrefixOf(h: seq<byte>, body: seq<byte>, p: seq<byte>, q: seq<byte>)
    requires p + q == h + body
    ensures if |p| <= |h| then p <= h else h <= p
  {
    assert forall i :: 0 <= i < |p| ==> p[i] == (h + body)[i];
  }

  lemma HeaderNotEmpty(h: seq<byte>)
    requires IsHeader(h)
    ensures |h| >= 4
  {
  }

  /** Every split of a whole response reports completion once, on its last read. */
  lemma AnySplitCompletesOnce(h: seq<byte>, body: seq<byte>, chunks: seq<seq<byte>>)
    requires IsHeader(h) && HeaderLength(h) == |body|
    requires Concat(chunks) == h + body && forall i :: 0 <= i < |chunks| ==> chunks[i] != []
    ensures chunks != [] && Reads(Fresh, chunks) == (Fresh, seq(|chunks| - 1, i => 0) + [1])
  {
    hide Consume, Reads, IsHeader, HeaderLength, Concat;
    assert [] + Concat(chunks) == h + body;
    HeaderNotEmpty(h);
    ReadsFinish(h, body, [], chunks);
  }

  // ----- what the scan finds: the first line whose name matches -----

  /** A header line: not empty, no line end and no NUL in it; single CRs and LFs may be. */
  ghost predicate IsLine(line: seq<byte>) {
    line != [] && NoLineEnd(line) && 0 !in line
  }

  predicate NoLineEnd(line: seq<byte>) {
    forall i :: 0 <= i < |line| - 1 ==> line[i] != CR || line[i + 1] != LF
  }

  predicate StartsWithCr(line: seq<byte>) {
    line != [] && line[0] == CR
  }

  /** The lines before a header's blank line. A CR at its very start the scan takes for a line end. */
  ghost predicate AreLines(lines: seq<seq<byte>>) {
    && lines != [] && (forall i :: 0 <= i < |lines| ==> IsLine(lines[i]))
    && !StartsWithCr(lines[0])
  }

  function JoinLines(lines: seq<seq<byte>>): (r: seq<byte>) {
    if lines == [] then CRLF else lines[0] + CRLF + JoinLines(lines[1..])
  }

  /** The text after the colon of the first matching line, with everything that follows it. */
  function FieldValue(lines: seq<seq<byte>>): (r: seq<byte>) {
    if lines == [] then []
    else if StartsWithName(lines[0]) then (lines[0] + CRLF + JoinLines(lines[1..]))[15..]
    else FieldValue(lines[1..])
  }

  lemma {:induction false} CrlfAfterLine(line: seq<byte>, rest: seq<byte>)
    requires NoLineEnd(line) && 0 !in line
    ensures StrStr(line + CRLF + rest, CRLF) == |line|
    decreases |line|
  {
    var s := line + CRLF + rest;
    if line == [] {
      assert CRLF <= s;
    } else {
      assert s[0] == line[0] && s[1..] == line[1..] + CRLF + rest;
      assert s[1] == if |line| > 1 then line[1] else CR;
      assert s[..2] != CRLF by { assert s[..2] == [s[0], s[1]]; }
      CrlfAfterLine(line[1..], rest);
    }
  }

  lemma NameInLine(line: seq<byte>, rest: seq<byte>)
    ensures StartsWithName(line + CRLF + rest) == StartsWithName(line)
  {
    var s := line + CRLF + rest;
    if |line| < 15 {
      assert s[|line|] == CR;
      assert Lower(s[|line|]) != NAME[|line|];
    } else {
      assert forall i :: 0 <= i < 15 ==> s[i] == line[i];
    }
  }

  /**
   * From the start of a line, or from the line end before it, the scan stops at the first line
   * with the field's name.
   */
  lemma {:induction false} ScanFindsFirstMatch(h: seq<byte>, p: nat, lines: seq<seq<byte>>)
    requires |h| >= 4 && forall i :: 0 <= i < |lines| ==> IsLine(lines[i])
    requires lines != [] && p <= |h| && (p == 0 ==> !StartsWithCr(lines[0]))
    requires h[p..] == (if p == 0 then JoinLines(lines) else CRLF + JoinLines(lines))
    ensures var v := ValueAt(h, p, |h| - 4);
      if exists i :: 0 <= i < |lines| && StartsWithName(lines[i])
      then v >= 0 && h[v..] == FieldValue(lines) else v == -1
    decreases |lines|
  {
    hide StartsWithName, ValueAt, IsLine;
    var line, rest := lines[0], JoinLines(lines[1..]);
    assert IsLine(lines[0]);
    assert if p == 0 then h[p..] == line + CRLF + rest else h[p..] == CRLF + (line + CRLF + rest);
    ScanOneLine(h, p, line, rest);
    if !StartsWithName(line) {
      var next := (if p == 0 then 0 else p + 2) + |line|;
      if lines[1..] == [] {
        ScanEnds(h, next);
      } else {
        assert forall i :: 0 <= i < |lines[1..]| ==> lines[1..][i] == lines[i + 1];
        ScanFindsFirstMatch(h, next, lines[1..]);
      }
    }
  }

  lemma ScanEnds(h: seq<byte>, p: nat)
    requires p <= |h| && h[p..] == CRLF + CRLF
    ensures p == |h| - 4 && ValueAt(h, p, |h| - 4) == -1
  {
  }

  /** One turn of the loop: the value after this line's name, or on to the line end after it. */
  lemma ScanOneLine(h: seq<byte>, p: nat, line: seq<byte>, rest: seq<byte>)
    requires IsLine(line) && |rest| >= 2 && p <= |h| && (p == 0 ==> !StartsWithCr(line))
    requires if p == 0 then h[p..] == line + CRLF + rest else h[p..] == CRLF + (line + CRLF + rest)
    ensures var q := if p == 0 then 0 else p + 2;
      && q + |line| <= |h| && |line| > 0
      && h[q + |line|..] == CRLF + rest
      && (StartsWithName(line) ==>
          ValueAt(h, p, |h| - 4) == q + 15 && q + 15 <= |h| && h[q + 15..] == (line + CRLF + rest)[15..])
      && (!StartsWithName(line) ==> ValueAt(h, p, |h| - 4) == ValueAt(h, q + |line|, |h| - 4))
  {
    hide StartsWithName, StrStr;
    var q := if p == 0 then 0 else p + 2;
    var t := line + CRLF + rest;
    assert h[q..] == t;
    assert h[p] == h[p..][0];
    assert t[|line|..] == CRLF + rest;
    assert h[q..][|line|..] == h[q + |line|..];
    NameInLine(line, rest);
    CrlfAfterLine(line, rest);
    if StartsWithName(line) {
      LongEnough(line);
      assert h[q..][15..] == h[q + 15..];
    }
  }

  lemma LongEnough(line: seq<byte>)
    requires StartsWithName(line)
    ensures |line| >= 15
  {
  }

  // ----- what number a header's lines give -----

  /** A match's own value and the lines after it: what strtol has before it, line by line. */
  function ValueLines(lines: seq<seq<byte>>): (texts: seq<seq<byte>>) {
    if lines == [] then []
    else if StartsWithName(lines[0]) then [lines[0][15..]] + lines[1..]
    else ValueLines(lines[1..])
  }

  /** The number at the start of the first text that is not blank. */
  function FirstNumber(texts: seq<seq<byte>>): (n: int) {
    if texts == [] then 0
    else if SkipSpace(texts[0]) == [] then FirstNumber(texts[1..])
    else StrToL(texts[0])
  }

  ghost predicate AllBlank(texts: seq<seq<byte>>) {
    forall i :: 0 <= i < |texts| ==> SkipSpace(texts[i]) == []
  }

  lemma {:induction false} DigitsStop(s: seq<byte>, x: seq<byte>, acc: nat)
    requires x != [] && !IsDigit(x[0])
    ensures Digits(s + x, acc) == Digits(s, acc)
    decreases |s|
  {
    if s == [] {
      assert s + x == x;
    } else if IsDigit(s[0]) {
      assert (s + x)[1..] == s[1..] + x;
      DigitsStop(s[1..], x, acc * 10 + (s[0] as int - 48));
    }
  }

  /** A number ends at the end of its line. */
  lemma StrToLStops(s: seq<byte>, x: seq<byte>)
    requires SkipSpace(s) != [] && x != [] && !IsDigit(x[0])
    ensures StrToL(s + x) == StrToL(s)
  {
    var t := SkipSpace(s);
    SkipSpaceExtend(s, x);
    DigitsStop(t, x, 0);
    DigitsStop(t[1..], x, 0);
    assert (t + x)[1..] == t[1..] + x;
  }

  lemma {:induction false} NumberOfLines(texts: seq<seq<byte>>)
    ensures StrToL(JoinLines(texts)) == FirstNumber(texts)
    ensures SkipSpace(JoinLines(texts)) == [] <==> AllBlank(texts)
    decreases |texts|
  {
    hide StrToL, Digits;
    LineEndIsBlank([]);
    if texts == [] {
      assert CRLF + [] == CRLF;
      NoNumber();
    } else {
      var own, rest := texts[0], JoinLines(texts[1..]);
      assert own + CRLF + rest == own + (CRLF + rest);
      if SkipSpace(own) == [] {
        NumberOfLines(texts[1..]);
        LineEndIsBlank(rest);
        SkipAll(own, CRLF + rest);
        SameNumber(own + (CRLF + rest), rest);
        assert forall i :: 0 < i < |texts| ==> texts[i] == texts[1..][i - 1];
        assert AllBlank(texts) <==> AllBlank(texts[1..]) by { BlankTail(texts); }
      } else {
        StrToLStops(own, CRLF + rest);
        SkipSpaceExtend(own, CRLF + rest);
      }
    }
  }

  lemma BlankTail(texts: seq<seq<byte>>)
    requires texts != [] && SkipSpace(texts[0]) == []
    ensures AllBlank(texts) <==> AllBlank(texts[1..])
  {
    hide SkipSpace;
    assert forall i :: 0 < i < |texts| ==> texts[i] == texts[1..][i - 1];
    assert forall i :: 0 <= i < |texts[1..]| ==> texts[1..][i] == texts[i + 1];
  }

  lemma LineEndIsBlank(rest: seq<byte>)
    ensures SkipSpace(CRLF + rest) == SkipSpace(rest)
  {
    var s := CRLF + rest;
    assert s[1..] == [LF] + rest && s[1..][1..] == rest;
  }

  lemma SameNumber(s: seq<byte>, t: seq<byte>)
    requires SkipSpace(s) == SkipSpace(t)
    ensures StrToL(s) == StrToL(t)
  {
  }

  lemma NoNumber()
    ensures StrToL(CRLF) == 0 && StrToL([]) == 0 && SkipSpace([]) == []
  {
    LineEndIsBlank([]);
    assert CRLF + [] == CRLF;
  }

  lemma {:induction false} ValueLinesJoin(lines: seq<seq<byte>>)
    ensures if exists i :: 0 <= i < |lines| && StartsWithName(lines[i])
      then ValueLines(lines) != [] && JoinLines(ValueLines(lines)) == FieldValue(lines)
      else ValueLines(lines) == []
    decreases |lines|
  {
    hide StartsWithName;
    if lines != [] {
      if StartsWithName(lines[0]) {
        LongEnough(lines[0]);
        var own, rest := lines[0][15..], lines[1..];
        assert ([own] + rest)[1..] == rest;
        assert (lines[0] + CRLF + JoinLines(rest))[15..] == own + CRLF + JoinLines(rest);
      } else {
        ValueLinesJoin(lines[1..]);
        assert forall i :: 0 <= i < |lines[1..]| ==> lines[1..][i] == lines[i + 1];
        assert forall i :: 0 < i < |lines| ==> lines[i] == lines[1..][i - 1];
      }
    }
  }

  lemma NotHere(s: seq<byte>, pat: seq<byte>)
    requires s != [] && s[0] != 0 && !(pat <= s)
    ensures StrStr(s, pat) == if StrStr(s[1..], pat) < 0 then -1 else StrStr(s[1..], pat) + 1
  {
  }

  lemma EndAtLineEnd(rest: seq<byte>)
    requires |rest| >= 2 && (CRLF <= rest ==> rest == CRLF)
    ensures StrStr(CRLF + rest, END) ==
      if rest == CRLF then 0 else if StrStr(rest, END) < 0 then -1 else 2 + StrStr(rest, END)
  {
    var s := CRLF + rest;
    if rest == CRLF {
      assert s == END;
    } else {
      hide StrStr;
      assert s[2..4] == rest[..2] != CRLF && END[2..4] == CRLF;
      NotHere(s, END);
      assert s[1..] == [LF] + rest && s[1..][1..] == rest;
      NotHere(s[1..], END);
    }
  }

  lemma {:induction false} EndAfterLine(line: seq<byte>, rest: seq<byte>)
    requires NoLineEnd(line) && 0 !in line && |rest| >= 2 && (CRLF <= rest ==> rest == CRLF)
    ensures StrStr(line + CRLF + rest, END) ==
      if rest == CRLF then |line| else if StrStr(rest, END) < 0 then -1 else |line| + 2 + StrStr(rest, END)
    decreases |line|
  {
    hide StrStr;
    var s := line + CRLF + rest;
    if line == [] {
      assert s == CRLF + rest;
      EndAtLineEnd(rest);
    } else {
      assert s[0] == line[0] && s[1..] == line[1..] + CRLF + rest;
      assert s[1] == if |line| > 1 then line[1] else CR;
      assert s[0] != END[0] || s[1] != END[1];
      NotHere(s, END);
      EndAfterLine(line[1..], rest);
    }
  }

  /** Lines and the blank line after them make a header block. */
  lemma {:induction false} LinesEnd(lines: seq<seq<byte>>)
    requires lines != [] && forall i :: 0 <= i < |lines| ==> IsLine(lines[i])
    ensures var h := JoinLines(lines); |h| >= 4 && StrStr(h, END) == |h| - 4 && !(CRLF <= h)
    decreases |lines|
  {
    hide StrStr;
    var line, tail := lines[0], lines[1..];
    assert IsLine(lines[0]);
    if tail != [] {
      assert forall i :: 0 <= i < |tail| ==> tail[i] == lines[i + 1];
      LinesEnd(tail);
    }
    EndAfterLine(line, JoinLines(tail));
    var h := JoinLines(lines);
    assert h[0] == line[0] && h[1] == if |line| > 1 then line[1] else CR;
    assert CRLF[0] == CR && CRLF[1] == LF;
  }

  /**
   * A header's length is the number at the start of the first text that is not blank, the matched
   * line's own value or else a later line; and the body is read on into exactly when all are blank.
   */
  lemma LengthOfLines(lines: seq<seq<byte>>)
    requires AreLines(lines) && |JoinLines(lines)| <= ROOM
    ensures var h, texts := JoinLines(lines), ValueLines(lines);
      && IsHeader(h)
      && (texts == [] <==> forall i :: 0 <= i < |lines| ==> !StartsWithName(lines[i]))
      && HeaderLength(h) == (if texts == [] then -1 else FirstNumber(texts))
      && (StopsInside(h) <==> texts != [] && !AllBlank(texts))
  {
    hide StrStr, ValueAt, StartsWithName, FirstNumber, ValueLines, AllBlank, StrToL, JoinLines, SkipSpace;
    LinesEnd(lines);
    var h := JoinLines(lines);
    assert h[0..] == h;
    ScanFindsFirstMatch(h, 0, lines);
    ValueLinesJoin(lines);
    NumberOfLines(ValueLines(lines));
  }

  /** The length is that of the field's own value if and only if that is not blank or no number follows. */
  lemma OwnValueIff(lines: seq<seq<byte>>)
    requires AreLines(lines) && |JoinLines(lines)| <= ROOM
    requires ValueLines(lines) != []
    ensures var own, after := ValueLines(lines)[0], ValueLines(lines)[1..];
      HeaderLength(JoinLines(lines)) == StrToL(own) <==> SkipSpace(own) != [] || FirstNumber(after) == 0
  {
    hide JoinLines, HeaderLength, ValueLines, StrToL, IsLine;
    LengthOfLines(lines);
    var own := ValueLines(lines)[0];
    if SkipSpace(own) == [] {
      NoNumber();
      SameNumber(own, []);
    }
  }

  /** A blank value and a line `7:` after it: the length is 7, whatever the body. */
  lemma BlankValueReadsNextLine()
    ensures var h := JoinLines([NAME, [55, 58]]);
      IsHeader(h) && StopsInside(h) && HeaderLength(h) == 7
  {
    var seven: seq<byte> := [55, 58];
    var lines := [NAME, seven];
    assert lines[1..] == [seven] && [seven][1..] == [];
    assert ValueLines(lines) == [NAME[15..]] + [seven];
    var texts := ValueLines(lines);
    assert texts[0] == [] && texts[1..] == [seven] && texts[1] == seven;
    assert seven[1..] == [58];
    assert StrToL(seven) == 7;
    assert JoinLines([seven]) == seven + CRLF + CRLF;
    LengthOfLines(lines);
  }

  /** A blank value in the last line: the length is 0, or what a body in the same buffer starts with. */
  lemma BlankValueReadsBody()
    ensures var h := JoinLines([NAME]);
      IsHeader(h) && !StopsInside(h) && HeaderLength(h) == 0 && HeaderLength(h + [49]) == 1
  {
    var lines := [NAME];
    assert lines[1..] == [];
    assert ValueLines(lines) == [NAME[15..]] + [];
    var texts := ValueLines(lines);
    assert |texts| == 1 && texts[0] == [];
    assert JoinLines(lines) == NAME + CRLF + CRLF;
    LengthOfLines(lines);
    OneDigit();
    BlankReadsOn(JoinLines(lines), [49]);
  }

  // ----- numbers as they are written -----

  /** A number in decimal. */
  function Decimal(n: nat): (text: seq<byte>)
    ensures text != []
  {
    if n < 10 then [48 + n] else Decimal(n / 10) + [48 + n % 10]
  }

  lemma {:induction false} DigitsOfDecimal(n: nat, x: seq<byte>)
    ensures Digits(Decimal(n) + x, 0) == Digits(x, n)
    decreases n
  {
    if n < 10 {
      var text: seq<byte> := [48 + n] + x;
      assert text[1..] == x;
    } else {
      var d: byte := 48 + n % 10;
      assert ([d] + x)[1..] == x;
      assert Decimal(n) + x == Decimal(n / 10) + ([d] + x);
      DigitsOfDecimal(n / 10, [d] + x);
    }
  }

  lemma {:induction false} FirstDigit(n: nat)
    ensures IsDigit(Decimal(n)[0])
  {
    if n >= 10 {
      FirstDigit(n / 10);
    }
  }

  lemma {:induction false} SpacesSkipped(spaces: seq<byte>, x: seq<byte>)
    requires forall i :: 0 <= i < |spaces| ==> spaces[i] == 32 || 9 <= spaces[i] <= 13
    requires x != [] && x[0] != 32 && !(9 <= x[0] <= 13)
    ensures SkipSpace(spaces + x) == x
    decreases |spaces|
  {
    if spaces == [] {
      assert spaces + x == x;
    } else {
      assert (spaces + x)[1..] == spaces[1..] + x;
      SpacesSkipped(spaces[1..], x);
    }
  }

  /** strtol in base ten: spaces, an optional sign, a decimal number, anything but a digit after it. */
  lemma StrToLOfDecimal(spaces: seq<byte>, n: nat, x: seq<byte>)
    requires forall i :: 0 <= i < |spaces| ==> spaces[i] == 32 || 9 <= spaces[i] <= 13
    requires x == [] || !(48 <= x[0] <= 57)
    ensures StrToL(spaces + Decimal(n) + x) == if n < 9223372036854775808 then n else 9223372036854775807
    ensures StrToL(spaces + [43] + Decimal(n) + x) == if n < 9223372036854775808 then n else 9223372036854775807
    ensures StrToL(spaces + [45] + Decimal(n) + x) == if n < 9223372036854775808 then -(n as int) else -9223372036854775808
  {
    hide SkipSpace, Decimal, Digits;
    var t := Decimal(n) + x;
    FirstDigit(n);
    assert t[0] == Decimal(n)[0];
    assert spaces + Decimal(n) + x == spaces + t;
    assert spaces + [43] + Decimal(n) + x == spaces + ([43] + t) && ([43] + t)[1..] == t;
    assert spaces + [45] + Decimal(n) + x == spaces + ([45] + t) && ([45] + t)[1..] == t;
    SpacesSkipped(spaces, t);
    SpacesSkipped(spaces, [43] + t);
    SpacesSkipped(spaces, [45] + t);
    DigitsOfDecimal(n, x);
    NoDigits(x, n);
  }

  lemma NoDigits(x: seq<byte>, acc: nat)
    requires x == [] || !(48 <= x[0] <= 57)
    ensures Digits(x, acc) == acc
  {
  }

  /** Content-Length: in capitals and in small letters. */
  const Capitals: seq<byte> := [67, 79, 78, 84, 69, 78, 84, 45, 76, 69, 78, 71, 84, 72, 58]
  const Smalls: seq<byte> := [99, 111, 110, 116, 101, 110, 116, 45, 108, 101, 110, 103, 116, 104, 58]

  /** The name in any mixture of the two. */
  predicate Named(name: seq<byte>) {
    |name| == 15 && forall i :: 0 <= i < 15 ==> name[i] == Capitals[i] || name[i] == Smalls[i]
  }

  lemma NameInAnyCase(line: seq<byte>)
    ensures StartsWithName(line) <==> |line| >= 15 && Named(line[..15])
  {
    if |line| >= 15 {
      forall i | 0 <= i < 15
        ensures Lower(line[i]) == NAME[i] <==> line[..15][i] == Capitals[i] || line[..15][i] == Smalls[i]
      {
      }
    }
  }

  lemma {:induction false} ValueLinesFrom(before: seq<seq<byte>>, line: seq<byte>, after: seq<seq<byte>>)
    requires StartsWithName(line) && forall i :: 0 <= i < |before| ==> !StartsWithName(before[i])
    ensures ValueLines(before + [line] + after) == [line[15..]] + after
    decreases |before|
  {
    hide StartsWithName;
    var lines := before + [line] + after;
    if before == [] {
      assert lines[0] == line && lines[1..] == after;
    } else {
      assert lines[0] == before[0] && lines[1..] == before[1..] + [line] + after;
      ValueLinesFrom(before[1..], line, after);
    }
  }

  /**
   * A header that says Content-Length: n, in any case, with any spaces before the number and anything
   * but a digit behind it, and no such line before that one, has length n, whatever body follows.
   */
  lemma LengthAsWritten(
    before: seq<seq<byte>>, name: seq<byte>, spaces: seq<byte>, n: nat, x: seq<byte>, after: seq<seq<byte>>, body: seq<byte>)
    requires forall i :: 0 <= i < |before| ==> |before[i]| < 15 || !Named(before[i][..15])
    requires Named(name) && forall i :: 0 <= i < |spaces| ==> spaces[i] == 32 || 9 <= spaces[i] <= 13
    requires n < 9223372036854775808 && (x == [] || !(48 <= x[0] <= 57))
    requires var lines := before + [name + spaces + Decimal(n) + x] + after; AreLines(lines) && |JoinLines(lines)| <= 16383
    ensures var h := JoinLines(before + [name + spaces + Decimal(n) + x] + after);
      IsHeader(h) && StopsInside(h) && HeaderLength(h) == n && HeaderLength(h + body) == n
  {
    hide JoinLines, HeaderLength, StopsInside, IsHeader, Named, Decimal, ValueLines, StrToL, SkipSpace, AreLines, StartsWithName;
    var line := name + spaces + Decimal(n) + x;
    var lines := before + [line] + after;
    var own := spaces + Decimal(n) + x;
    NamedLength(name);
    assert line[..15] == name && line[15..] == own;
    NameInAnyCase(line);
    forall i | 0 <= i < |before|
      ensures !StartsWithName(before[i])
    {
      NameInAnyCase(before[i]);
    }
    ValueLinesFrom(before, line, after);
    LengthOfLines(lines);
    StrToLOfDecimal(spaces, n, x);
    OwnNotBlank(spaces, n, x);
    assert ([own] + after)[0] == own;
    HeaderLengthExtend(JoinLines(lines), body);
  }

  lemma NamedLength(name: seq<byte>)
    requires Named(name)
    ensures |name| == 15
  {
  }

  lemma OwnNotBlank(spaces: seq<byte>, n: nat, x: seq<byte>)
    requires forall i :: 0 <= i < |spaces| ==> spaces[i] == 32 || 9 <= spaces[i] <= 13
    ensures SkipSpace(spaces + Decimal(n) + x) != []
  {
    hide SkipSpace, Decimal;
    FirstDigit(n);
    assert spaces + Decimal(n) + x == spaces + (Decimal(n) + x);
    SpacesSkipped(spaces, Decimal(n) + x);
  }

  /** So a response whose header says n and whose body has n bytes is complete at its last byte, in any reads. */
  lemma ResponseAsWritten(
    before: seq<seq<byte>>, name: seq<byte>, spaces: seq<byte>, x: seq<byte>, after: seq<seq<byte>>, body: seq<byte>,
    chunks: seq<seq<byte>>)
    requires forall i :: 0 <= i < |before| ==> |before[i]| < 15 || !Named(before[i][..15])
    requires Named(name) && forall i :: 0 <= i < |spaces| ==> spaces[i] == 32 || 9 <= spaces[i] <= 13
    requires |body| < 9223372036854775808 && (x == [] || !(48 <= x[0] <= 57))
    requires var lines := before + [name + spaces + Decimal(|body|) + x] + after;
      && AreLines(lines) && |JoinLines(lines)| <= 16383 && Concat(chunks) == JoinLines(lines) + body
    requires forall i :: 0 <= i < |chunks| ==> chunks[i] != []
    ensures chunks != [] && Reads(Fresh, chunks) == (Fresh, seq(|chunks| - 1, i => 0) + [1])
  {
    hide JoinLines, HeaderLength, StopsInside, IsHeader, Named, Decimal, AreLines, Reads, Concat;
    LengthAsWritten(before, name, spaces, |body|, x, after, []);
    AnySplitCompletesOnce(JoinLines(before + [name + spaces + Decimal(|body|) + x] + after), body, chunks);
  }

  /** A header that has not ended by its 16383rd byte is too long. */
  lemma TooLongHeader(data: seq<byte>)
    requires |data| > 16383 && StrStr(data[..16383], [13, 10, 13, 10]) < 0
    ensures Consume(Fresh, data).1 == -1
  {
    hide StrStr, HeaderLength, Consume;
    var h := data[..16383];
    assert [] + h == h && END == [13, 10, 13, 10];
    NothingInNothing();
    ConsumeStep(Fresh, data);
    assert Consume(Fresh, data) == Consume(Header(h), data[16383..]);
    ConsumeStep(Header(h), data[16383..]);
  }

  // ----- consume -----

  /** One turn of the loop. */
  lemma ConsumeStep(st: State, data: seq<byte>)
    requires st.Valid() && data != []
    ensures st.Body? ==> Consume(st, data) == TakeBody(st.left, data)
    ensures !st.Body? ==>
      var h := if st.Header? then st.bytes else [];
      var take := Min(|data|, ROOM - |h|);
      var h' := h + data[..take];
      var e, cl := StrStr(h', END), HeaderLength(h');
      && |h'| <= ROOM
      && (take == 0 ==> Consume(st, data) == (st, -1))
      && (take > 0 && e < 0 ==> Header(h').Valid() && Consume(st, data) == Consume(Header(h'), data[take..]))
      && (take > 0 && e >= 0 && cl < 0 ==> Consume(st, data) == (Header(h'), -1))
      && (take > 0 && e >= 0 && cl >= 0 ==>
          0 <= take - (|h'| - (e + 4)) <= |data|
          && Consume(st, data) == TakeBody(cl, data[take - (|h'| - (e + 4))..]))
  {
    hide StrStr, HeaderLength;
    NothingInNothing();
    var h := if st.Header? then st.bytes else [];
    var take := Min(|data|, ROOM - |h|);
    if StrStr(h + data[..take], END) >= 0 {
      EndIsNew(h, data[..take]);
    }
    if take < |data| {
      ConsumeNothing(st);
    } else {
      assert data[take..] == [];
    }
  }

  class Slot {
    var hdr: State  // the header pointer: none, a buffer, or the headers-done marker with body_left

    /** The body's share of a read. */
    method ConsumeBody(data: seq<byte>) returns (r: int)
      requires hdr.Body?
      modifies this
      ensures (hdr, r) == TakeBody(old(hdr).left, data)
    {
      var left := hdr.left;
      var eat := Min(left, |data|);
      var rest := data[eat..];
      hdr := Body(left - eat);
      if left - eat == 0 {
        hdr := Fresh;
        return if rest == [] then 1 else -1;
      }
      return 0;  // nothing is left of the read
    }

    /** One read of `data`; `memory` is whether the header buffer can be allocated. */
    method ConsumeH1(data: seq<byte>, memory: bool) returns (r: int)
      requires hdr.Valid()
      modifies this
      ensures memory || !old(hdr).Fresh? || data == [] ==> (hdr, r) == Consume(old(hdr), data)
      ensures !memory && old(hdr).Fresh? && data != [] ==> hdr == old(hdr) && r == -1
      ensures r >= 0 ==> hdr.Valid()
    {
      hide StrStr, HeaderLength, Consume, TakeBody;
      var rest := data;
      while rest != []
        invariant hdr.Valid()
        invariant Consume(hdr, rest) == Consume(old(hdr), data)
        invariant rest != data ==> !hdr.Fresh? && (memory || !old(hdr).Fresh?)
        invariant hdr.Body? ==> hdr == old(hdr) && rest == data
        invariant rest == data ==> hdr == old(hdr)
        decreases |rest|
      {
        ConsumeStep(hdr, rest);
        if !hdr.Body? {
          if hdr.Fresh? {
            if !memory {
              return -1;
            }
          }
          NothingInNothing();
          var h := if hdr.Header? then hdr.bytes else [];
          var room := ROOM - |h|;
          if room == 0 {
            return -1;
          }
          var take := Min(|rest|, room);
          var h' := h + rest[..take];
          var end := StrStr(h', END);
          if end < 0 {
            hdr := Header(h');
            rest := rest[take..];
            continue;
          }
          var cl := HeaderLength(h');
          if cl < 0 {
            hdr := Header(h');
            return -1;
          }
          var extra := |h'| - (end + 4);
          rest := rest[take - extra..];
          hdr := Body(cl);
        }
        r := ConsumeBody(rest);
        return;
      }
      ConsumeNothing(hdr);
      return 0;
    }
  }
}
