/**
 * The TASFA crypto module: IV derivation, additional data, and the framed request
 * and response of wasm/tasfa_crypto_module.c and wasm/tasfa_crypto_protocol.h.
 */
module TasfaModule {
  import opened Bytes
  import Gcm

  const FIXED := 51  // op, key, IV seed, chunk index and sid length
  const MAX_SID := 512
  const TAG := 16
  const OP_ENCRYPT: bv8 := 1
  const OP_DECRYPT: bv8 := 2
  const COLON: bv8 := 58
  const MINUS: bv8 := 45

  // ----- signed chunk indices -----

  type int32 = x: int | -0x8000_0000 <= x < 0x8000_0000

  function ToInt32(u: nat): (r: int32)
    requires u < 0x1_0000_0000
  {
    if u < 0x8000_0000 then u else u - 0x1_0000_0000
  }

  function ToUint32(x: int32): (u: nat)
    ensures u < 0x1_0000_0000 && ToInt32(u) == x
  {
    if x >= 0 then x else x + 0x1_0000_0000
  }

  // ----- IV derivation -----

  function DeriveIv(seed: seq<bv8>, chunk: int32): (iv: seq<bv8>)
    requires |seed| == 12
    ensures |iv| == 12
  {
    seed[..8] + XorBytes(seed[8..], Be32Write(ToUint32(chunk)))
  }

  /** One seed never gives two chunk indices the same IV. */
  lemma DeriveIvInjective(seed: seq<bv8>, a: int32, b: int32)
    requires |seed| == 12 && DeriveIv(seed, a) == DeriveIv(seed, b)
    ensures a == b
  {
    hide Be32Write, Be32Read, XorBytes;
    var x, y, tail := Be32Write(ToUint32(a)), Be32Write(ToUint32(b)), seed[8..];
    assert DeriveIv(seed, a)[8..] == XorBytes(tail, x);
    assert DeriveIv(seed, b)[8..] == XorBytes(tail, y);
    XorBytesCancels(tail, x, y);
    Be32ReadWrite(ToUint32(a));
    Be32ReadWrite(ToUint32(b));
  }

  lemma DeriveIvTwice(seed: seq<bv8>, chunk: int32)
    requires |seed| == 12
    ensures DeriveIv(DeriveIv(seed, chunk), chunk) == seed
  {
    hide Be32Write, XorBytes;
    var x, iv := Be32Write(ToUint32(chunk)), DeriveIv(seed, chunk);
    assert iv[8..] == XorBytes(seed[8..], x) && iv[..8] == seed[..8];
    XorBytesTwice(seed[8..], x);
  }

  /** The index, as a 32-bit two's complement number, is added to the last four bytes, the highest first. */
  lemma DeriveIvByBytes(seed: seq<bv8>, chunk: int32)
    requires |seed| == 12
    ensures var iv := DeriveIv(seed, chunk);
      var u := if chunk >= 0 then chunk else chunk + 0x1_0000_0000;
      && iv[..8] == seed[..8]
      && ToNat(iv[8] ^ seed[8]) == u / 0x100_0000 && ToNat(iv[9] ^ seed[9]) == u / 0x1_0000 % 256
      && ToNat(iv[10] ^ seed[10]) == u / 0x100 % 256 && ToNat(iv[11] ^ seed[11]) == u % 256
  {
    hide FromNat, ToNat;
    var x := Be32Write(ToUint32(chunk));
    var iv := DeriveIv(seed, chunk);
    forall i | 0 <= i < 4
      ensures iv[8 + i] ^ seed[8 + i] == x[i]
    {
      XorBack(seed[8 + i], x[i]);
    }
  }

  lemma XorBack(s: bv8, x: bv8)
    ensures (s ^ x) ^ s == x
  {
  }

  // ----- additional data: the sid as a C string, a colon, the index in decimal -----

  function CString(s: seq<bv8>): (r: seq<bv8>)
    ensures |r| <= |s| && 0 !in r
    ensures 0 !in s ==> r == s
  {
    if s == [] || s[0] == 0 then [] else [s[0]] + CString(s[1..])
  }

  function Decimal(n: nat): (d: seq<bv8>)
    ensures |d| > 0
  {
    if n < 10 then [FromNat(48 + n)] else Decimal(n / 10) + [FromNat(48 + n % 10)]
  }

  function Abs(x: int): (r: nat) {
    if x >= 0 then x else 0 - x
  }

  function SignedDecimal(x: int32): (r: seq<bv8>) {
    if x >= 0 then Decimal(x) else [MINUS] + Decimal(Abs(x))
  }

  function Aad(sid: seq<bv8>, chunk: int32): (r: seq<bv8>) {
    CString(sid) + [COLON] + SignedDecimal(chunk)
  }

  /** The sid up to its first NUL. */
  lemma {:induction false} CStringIs(s: seq<bv8>)
    ensures CString(s) <= s && 0 !in CString(s) && (|CString(s)| < |s| ==> s[|CString(s)|] == 0)
  {
    if s != [] && s[0] != 0 {
      CStringIs(s[1..]);
    }
  }

  /** What a string of digits says in base ten. */
  function ReadDecimal(d: seq<bv8>): (n: int) {
    if d == [] then 0 else 10 * ReadDecimal(d[..|d| - 1]) + (ToNat(d[|d| - 1]) - 48)
  }

  lemma {:induction false} DecimalReads(n: nat)
    ensures ReadDecimal(Decimal(n)) == n
    ensures n > 0 ==> ToNat(Decimal(n)[0]) != 48
  {
    hide FromNat, ToNat;
    var d := Decimal(n);
    if n >= 10 {
      DecimalReads(n / 10);
      assert d[..|d| - 1] == Decimal(n / 10);
    } else {
      assert d[..0] == [] && ReadDecimal([]) == 0;
    }
  }

  /** The sid, a colon, and the index in decimal, behind a minus if it is negative. */
  lemma AadText(sid: seq<bv8>, chunk: int32)
    ensures var c: int := chunk;
      && (c >= 0 ==> Aad(sid, chunk) == CString(sid) + [58] + Decimal(c))
      && (c < 0 ==> Aad(sid, chunk) == CString(sid) + [58, 45] + Decimal(-c))
  {
    hide Decimal, CString;
    var c: int := chunk;
    if c < 0 {
      assert Aad(sid, chunk) == CString(sid) + [58] + ([45] + Decimal(-c));
      assert [58] + [45] == [58, 45];
    }
  }

  predicate IsDigit(b: bv8) {
    48 <= ToNat(b) < 58
  }

  lemma {:induction false} DecimalDigits(n: nat, k: nat)
    requires k < |Decimal(n)|
    ensures IsDigit(Decimal(n)[k])
  {
    hide FromNat, ToNat;
    if n >= 10 && k < |Decimal(n / 10)| {
      DecimalDigits(n / 10, k);
    }
  }

  lemma {:induction false} DecimalInjective(m: nat, n: nat)
    requires Decimal(m) == Decimal(n)
    ensures m == n
  {
    hide FromNat, ToNat, Decimal;
    DecimalEnds(m);
    DecimalEnds(n);
    if m >= 10 && n >= 10 {
      DecimalInjective(m / 10, n / 10);
    }
  }

  lemma DecimalEnds(n: nat)
    ensures var d := Decimal(n);
      && ToNat(d[|d| - 1]) == 48 + n % 10
      && (if n < 10 then |d| == 1 else |d| > 1 && d[..|d| - 1] == Decimal(n / 10))
  {
    hide FromNat, ToNat;
  }

  function Pow10(k: nat): (r: nat) {
    if k == 0 then 1 else 10 * Pow10(k - 1)
  }

  lemma {:induction false} DecimalLength(n: nat, k: nat)
    requires k > 0 && n < Pow10(k)
    ensures |Decimal(n)| <= k
  {
    if n >= 10 {
      DecimalLength(n / 10, k - 1);
    }
  }

  /** Sign, digits and separator always fit: the 528-byte buffer never truncates. */
  lemma AadFits(sid: seq<bv8>, chunk: int32)
    requires |sid| <= MAX_SID
    ensures 0 < |Aad(sid, chunk)| < MAX_SID + 16
  {
    assert Pow10(10) == 10_000_000_000 by {
      assert Pow10(5) == 100_000;
    }
    DecimalLength(Abs(chunk), 10);
  }

  /** The text after the last colon is never itself split by a colon. */
  lemma SignedDecimalNoColon(x: int32, k: nat)
    requires k < |SignedDecimal(x)|
    ensures SignedDecimal(x)[k] != COLON
  {
    hide FromNat, ToNat, Decimal;
    CodesDiffer();
    if x >= 0 {
      DecimalDigits(x, k);
    } else if k > 0 {
      DecimalDigits(Abs(x), k - 1);
    }
  }

  lemma CodesDiffer()
    ensures !IsDigit(COLON) && !IsDigit(MINUS) && COLON != MINUS
  {
  }

  lemma SignedDecimalInjective(x: int32, y: int32)
    requires SignedDecimal(x) == SignedDecimal(y)
    ensures x == y
  {
    hide FromNat, ToNat, Decimal;
    CodesDiffer();
    if x >= 0 && y >= 0 {
      DecimalInjective(x, y);
    } else if x < 0 && y < 0 {
      assert SignedDecimal(x)[1..] == Decimal(Abs(x)) && SignedDecimal(y)[1..] == Decimal(Abs(y));
      DecimalInjective(Abs(x), Abs(y));
    } else if x >= 0 {
      DecimalDigits(x, 0);
    } else {
      DecimalDigits(y, 0);
    }
  }

  /** Sids without NUL may contain colons and the text still tells both parts apart. */
  lemma AadInjective(s: seq<bv8>, x: int32, t: seq<bv8>, y: int32)
    requires 0 !in s && 0 !in t && Aad(s, x) == Aad(t, y)
    ensures s == t && x == y
  {
    hide SignedDecimal, CString;
    var d, e, a := SignedDecimal(x), SignedDecimal(y), Aad(s, x);
    if |d| < |e| {
      assert a[|s|] == COLON;
      assert a[|s|] == e[|s| - |t| - 1];
      SignedDecimalNoColon(y, |s| - |t| - 1);
    } else if |e| < |d| {
      assert a[|t|] == COLON;
      assert a[|t|] == d[|t| - |s| - 1];
      SignedDecimalNoColon(x, |t| - |s| - 1);
    } else {
      assert s == a[..|s|] == a[..|t|] == t;
      assert d == a[|s| + 1..] == e;
      SignedDecimalInjective(x, y);
    }
  }

  // ----- the request frame -----

  datatype Request =
    | Request(op: bv8, key: seq<bv8>, seed: seq<bv8>, chunk: int32, sid: seq<bv8>, data: seq<bv8>)
    | Malformed

  ghost predicate WellFormed(r: Request) {
    && r.Request?
    && |r.key| == 32
    && |r.seed| == 12
    && |r.sid| <= MAX_SID
    && |r.data| < 0x1_0000_0000
  }

  function Be16Read(s: seq<bv8>): (r: nat)
    requires |s| == 2
  {
    ToNat(s[0]) * 256 + ToNat(s[1])
  }

  function Be16Write(n: nat): (s: seq<bv8>)
    requires n < 0x1_0000
    ensures |s| == 2
  {
    [FromNat(n / 256), FromNat(n % 256)]
  }

  function ParseRequest(req: seq<bv8>): (r: Request)
    ensures r.Request? ==> WellFormed(r)
  {
    if |req| < FIXED + 4 then Malformed
    else
      var sidLen := Be16Read(req[49..51]);
      if sidLen > MAX_SID || |req| < FIXED + sidLen + 4 then Malformed
      else
        var at := FIXED + sidLen;
        var dataLen := Be32Read(req[at..at + 4]);
        if |req| != at + 4 + dataLen then Malformed
        else Request(req[0], req[1..33], req[33..45], ToInt32(Be32Read(req[45..49])), req[FIXED..at], req[at + 4..])
  }

  function Serialize(r: Request): (res: seq<bv8>)
    requires WellFormed(r)
  {
    [r.op] + r.key + r.seed + Be32Write(ToUint32(r.chunk)) + Be16Write(|r.sid|) + r.sid
    + Be32Write(|r.data|) + r.data
  }

  /** Every frame the host can build is read back field by field. */
  lemma ParseSerialize(r: Request)
    requires WellFormed(r)
    ensures ParseRequest(Serialize(r)) == r
  {
    hide Be32Write, Be32Read, Be16Write, Be16Read;
    var f, at := Serialize(r), FIXED + |r.sid|;
    assert f[45..49] == Be32Write(ToUint32(r.chunk));
    assert f[49..51] == Be16Write(|r.sid|);
    assert f[FIXED..at] == r.sid;
    assert f[at..at + 4] == Be32Write(|r.data|);
    assert f[at + 4..] == r.data;
    assert f[1..33] == r.key && f[33..45] == r.seed;
    Be32ReadWrite(ToUint32(r.chunk));
    Be32ReadWrite(|r.data|);
    Be16ReadWrite(|r.sid|);
  }

  lemma Be16ReadWrite(n: nat)
    requires n < 0x1_0000
    ensures Be16Read(Be16Write(n)) == n
  {
    hide FromNat, ToNat;
  }

  // ----- the response -----

  /** The five header bytes and as much of the output as the 32-bit length field says. */
  function Respond(out: seq<bv8>): (r: seq<bv8>) {
    var outLen := |out| % 0x1_0000_0000;
    [0] + Be32Write(outLen) + out[..outLen]
  }

  const Failure: seq<bv8> := [1, 0, 0, 0, 0]

  /** The output of the operation a request asks for, if it succeeds. */
  function Output(r: Request): (res: Gcm.Opened)
    requires WellFormed(r)
  {
    hide DeriveIv, Aad, Gcm.EncryptSpec, Gcm.DecryptSpec;
    var iv, aad := DeriveIv(r.seed, r.chunk), Aad(r.sid, r.chunk);
    if r.op == OP_ENCRYPT then
      var e := Gcm.EncryptSpec(r.key, iv, aad, r.data);
      Gcm.Opened(e.ct + e.tag)
    else if r.op == OP_DECRYPT && |r.data| >= TAG then
      var n := |r.data| - TAG;
      Gcm.DecryptSpec(r.key, iv, aad, r.data[..n], r.data[n..])
    else Gcm.Rejected
  }

  function Handle(req: seq<bv8>): (resp: seq<bv8>)
    ensures |resp| >= 5
  {
    hide Output;
    var r := ParseRequest(req);
    if r.Request? && Output(r).Opened? then Respond(Output(r).pt) else Failure
  }

  // ----- the frames by offsets -----

  /** The sid length of a request, big-endian in two bytes. */
  function SidLength(req: seq<bv8>): (n: nat)
    requires |req| >= 51
  {
    ToNat(req[49]) * 256 + ToNat(req[50])
  }

  /** A number in four bytes, big-endian. */
  function WordAt(req: seq<bv8>, i: nat): (n: nat)
    requires i + 4 <= |req|
  {
    ToNat(req[i]) * 0x100_0000 + ToNat(req[i + 1]) * 0x1_0000 + ToNat(req[i + 2]) * 0x100 + ToNat(req[i + 3])
  }

  lemma ReadsAt(req: seq<bv8>, i: nat)
    requires i + 4 <= |req|
    ensures Be32Read(req[i..i + 4]) == WordAt(req, i)
    ensures |req| >= 51 ==> Be16Read(req[49..51]) == SidLength(req)
  {
    hide ToNat;
  }

  /** A request: 51 bytes, the sid of at most 512, four of data length, and exactly that much data. */
  lemma RequestIff(req: seq<bv8>)
    ensures ParseRequest(req).Request? <==>
      && |req| >= 55 && SidLength(req) <= 512 && |req| >= 55 + SidLength(req)
      && |req| == 55 + SidLength(req) + WordAt(req, 51 + SidLength(req))
  {
    hide ToNat, Be32Read, Be16Read, SidLength, WordAt, ToInt32;
    if |req| >= 55 {
      ReadsAt(req, 45);
      var n := SidLength(req);
      if n <= 512 && |req| >= 55 + n {
        ReadsAt(req, 51 + n);
      }
    }
  }

  /** Its fields: op, 32 bytes of key, 12 of seed, four of index, which is signed, two of sid length, sid, data. */
  lemma RequestByOffsets(req: seq<bv8>)
    requires ParseRequest(req).Request?
    ensures |req| >= 55 + SidLength(req)
    ensures var r, n, u := ParseRequest(req), SidLength(req), WordAt(req, 45);
      && r.op == req[0] && r.key == req[1..33] && r.seed == req[33..45]
      && u < 0x1_0000_0000 && r.chunk == (if u < 0x8000_0000 then u else u - 0x1_0000_0000)
      && r.sid == req[51..51 + n] && r.data == req[55 + n..]
  {
    hide ToNat, Be32Read, Be16Read, SidLength, WordAt;
    ReadsAt(req, 45);
  }

  /** Anything else, and any op but 1 and 2: status 1 and length 0. */
  lemma OtherAnswers(req: seq<bv8>)
    ensures var r := ParseRequest(req);
      r.Malformed? || (r.op != 1 && r.op != 2) || (r.op == 2 && |r.data| < 16) ==> Handle(req) == [1, 0, 0, 0, 0]
  {
    hide ParseRequest, DeriveIv, Aad, Be32Write, Gcm.EncryptSpec, Gcm.DecryptSpec;
  }

  /** Status 0, the length in four bytes, and so much of the output. */
  predicate Carries(resp: seq<bv8>, out: seq<bv8>) {
    var n := |out| % 0x1_0000_0000;
    resp == [0] + Be32Write(n) + out[..n]
  }

  /** What an encrypt request seals. */
  function Seals(r: Request): (e: Gcm.Sealed)
    requires WellFormed(r)
  {
    hide DeriveIv, Aad, Gcm.EncryptSpec;
    Gcm.EncryptSpec(r.key, DeriveIv(r.seed, r.chunk), Aad(r.sid, r.chunk), r.data)
  }

  /** Op 1: ciphertext and tag. */
  lemma EncryptAnswer(req: seq<bv8>)
    requires ParseRequest(req).Request? && ParseRequest(req).op == 1
    ensures var e := Seals(ParseRequest(req)); Carries(Handle(req), e.ct + e.tag)
  {
    hide ParseRequest, DeriveIv, Aad, Be32Write, Gcm.EncryptSpec, Gcm.DecryptSpec;
  }

  /** What a decrypt request opens: the last sixteen bytes of its data are the tag. */
  function Opens(r: Request): (d: Gcm.Opened)
    requires WellFormed(r) && |r.data| >= 16
  {
    hide DeriveIv, Aad, Gcm.DecryptSpec;
    var n := |r.data| - 16;
    Gcm.DecryptSpec(r.key, DeriveIv(r.seed, r.chunk), Aad(r.sid, r.chunk), r.data[..n], r.data[n..])
  }

  /** Op 2: status 0, the length and the plaintext, if it opens; else status 1 and length 0. */
  lemma DecryptAnswer(req: seq<bv8>)
    requires ParseRequest(req).Request? && ParseRequest(req).op == 2 && |ParseRequest(req).data| >= 16
    ensures var r := ParseRequest(req);
      && (Opens(r).Opened? ==> |Opens(r).pt| == |r.data| - 16 && Carries(Handle(req), Opens(r).pt))
      && (Opens(r).Rejected? ==> Handle(req) == [1, 0, 0, 0, 0])
  {
    hide ParseRequest, DeriveIv, Aad, Be32Write, Gcm.EncryptSpec, Gcm.DecryptSpec;
    var r := ParseRequest(req);
    var n := |r.data| - 16;
    DecryptedLength(r.key, DeriveIv(r.seed, r.chunk), Aad(r.sid, r.chunk), r.data[..n], r.data[n..]);
  }

  lemma DecryptedLength(key: seq<bv8>, iv: seq<bv8>, aad: seq<bv8>, ct: seq<bv8>, tag: seq<bv8>)
    requires |key| == 32 && |iv| == 12 && |tag| == 16
    ensures var d := Gcm.DecryptSpec(key, iv, aad, ct, tag); d.Opened? ==> |d.pt| == |ct|
  {
    hide Gcm.TagSpec;
  }

  // ----- the module, whose size_t has 32 bits -----

  const SIZES := 0x1_0000_0000

  /**
   * The length test does not mistake a sum that wraps for the length, and of a request that
   * passes it neither the response's capacity nor its length field wraps.
   */
  lemma SumsDoNotWrap(reqLen: nat, sidLen: nat, dataLen: nat)
    requires reqLen < SIZES && dataLen < SIZES && sidLen <= MAX_SID && reqLen >= FIXED + sidLen + 4
    ensures reqLen == (FIXED + sidLen + 4 + dataLen) % SIZES <==> reqLen == FIXED + sidLen + 4 + dataLen
    ensures reqLen == (FIXED + sidLen + 4 + dataLen) % SIZES ==>
      5 + dataLen + TAG < SIZES && dataLen + TAG < SIZES
  {
    var sum := FIXED + sidLen + 4 + dataLen;
    if sum >= SIZES {
      assert sum % SIZES == sum - SIZES;
    }
  }

  method Parse(req: seq<bv8>) returns (r: Request)
    requires |req| < SIZES
    ensures r == ParseRequest(req)
    ensures r.Request? ==> 5 + |r.data| + TAG < SIZES
  {
    hide Be32Read, Be16Read;
    if |req| < FIXED + 4 {
      return Malformed;
    }
    var sidLen := Be16Read(req[49..51]);
    if sidLen > MAX_SID || |req| < FIXED + sidLen + 4 {
      return Malformed;
    }
    var at := FIXED + sidLen;
    var dataLen := Be32Read(req[at..at + 4]);
    SumsDoNotWrap(|req|, sidLen, dataLen);
    if |req| != (at + 4 + dataLen) % SIZES {
      return Malformed;
    }
    return Request(req[0], req[1..33], req[33..45], ToInt32(Be32Read(req[45..49])), req[FIXED..at], req[at + 4..]);
  }

  /**
   * The module's main: one request in, one response out. `memory` is whether the two
   * allocations succeed. The branch for truncated additional data is never taken (AadFits).
   */
  method Serve(req: seq<bv8>, memory: bool) returns (resp: seq<bv8>)
    requires |req| < SIZES
    ensures resp == if memory then Handle(req) else Failure
  {
    hide Be32Write, Output, ParseRequest;
    if !memory {
      return Failure;
    }
    var r := Parse(req);
    if r.Malformed? {
      return Failure;
    }
    var buf := new bv8[(5 + |r.data| + TAG) % SIZES];
    var status, outLen := Operate(r, buf);
    ghost var body := buf[5..];
    assert body[..outLen] == buf[5..5 + outLen];
    PutHeader(buf, status, outLen);
    resp := buf[..5 + outLen];
    assert resp == [status] + Be32Write(outLen) + body[..outLen];
    if status == 0 {
      assert resp == Respond(Output(r).pt);
    } else {
      FailureHeader();
      assert resp == Failure;
    }
  }

  /** The buffer holds the output behind the header, cut to the wrapped length. */
  ghost predicate Delivered(out: Gcm.Opened, status: bv8, outLen: nat, buf: seq<bv8>) {
    && outLen < 0x1_0000_0000 && 5 + outLen <= |buf|
    && status == (if out.Opened? then 0 else 1)
    && if out.Opened? then outLen == |out.pt| % 0x1_0000_0000 && buf[5..5 + outLen] == out.pt[..outLen]
       else outLen == 0
  }

  lemma OutputByOp(r: Request)
    requires WellFormed(r)
    ensures var iv, aad, n := DeriveIv(r.seed, r.chunk), Aad(r.sid, r.chunk), |r.data| - TAG;
      Output(r) ==
        if r.op == OP_ENCRYPT then
          var e := Gcm.EncryptSpec(r.key, iv, aad, r.data); Gcm.Opened(e.ct + e.tag)
        else if r.op == OP_DECRYPT && n >= 0 then Gcm.DecryptSpec(r.key, iv, aad, r.data[..n], r.data[n..])
        else Gcm.Rejected
  {
    hide Gcm.EncryptSpec, Gcm.DecryptSpec, DeriveIv, Aad;
  }

  /** The switch on the operation, writing its output behind the header. */
  method Operate(r: Request, buf: array<bv8>) returns (status: bv8, outLen: nat)
    requires WellFormed(r) && buf.Length == 5 + |r.data| + TAG
    modifies buf
    ensures Delivered(Output(r), status, outLen, buf[..])
  {
    hide Gcm.EncryptSpec, Gcm.DecryptSpec, DeriveIv, Aad, Output;
    OutputByOp(r);
    status, outLen := 1, 0;
    var iv := DeriveIv(r.seed, r.chunk);
    AadFits(r.sid, r.chunk);
    var aad := Aad(r.sid, r.chunk);
    if r.op == OP_ENCRYPT {
      EncryptedLength(r.key, iv, aad, r.data);
      var tag := Gcm.Encrypt(r.key, iv, aad, r.data, buf, 5);
      PutTag(buf, 5 + |r.data|, tag);
      assert buf[5..] == Output(r).pt;
      outLen := (|r.data| + TAG) % 0x1_0000_0000;
      status := 0;
      assert buf[5..5 + outLen] == buf[5..][..outLen];
    } else if r.op == OP_DECRYPT {
      if |r.data| >= TAG {
        var n := |r.data| - TAG;
        var ok := Gcm.Decrypt(r.key, iv, aad, r.data[..n], r.data[n..], buf, 5);
        if ok {
          assert buf[5..5 + n] == Output(r).pt;
          outLen := n;
          status := 0;
          assert Output(r).pt[..n] == Output(r).pt && n % 0x1_0000_0000 == n;
        }
      }
    }
  }

  method PutTag(buf: array<bv8>, at: nat, tag: seq<bv8>)
    requires |tag| == TAG && at + TAG <= buf.Length
    modifies buf
    ensures buf[..] == old(buf[..at]) + tag + old(buf[at + TAG..])
  {
    for i := 0 to TAG
      invariant forall k :: 0 <= k < buf.Length && !(at <= k < at + i) ==> buf[k] == old(buf[k])
      invariant forall k :: at <= k < at + i ==> buf[k] == tag[k - at]
    {
      buf[at + i] := tag[i];
    }
  }

  method PutHeader(buf: array<bv8>, status: bv8, outLen: nat)
    requires buf.Length >= 5 && outLen < 0x1_0000_0000
    modifies buf
    ensures buf[..] == [status] + Be32Write(outLen) + old(buf[5..])
  {
    hide Be32Write;
    var len := Be32Write(outLen);
    buf[0] := status;
    buf[1] := len[0];
    buf[2] := len[1];
    buf[3] := len[2];
    buf[4] := len[3];
  }

  lemma FailureHeader()
    ensures [1] + Be32Write(0) == Failure
  {
    assert FromNat(0) == 0;
  }

  // ----- what the module promises end to end -----

  ghost predicate TagMatches(r: Request)
    requires WellFormed(r)
  {
    hide DeriveIv, Aad, Gcm.TagSpec, Gcm.InitSpec;
    var n := |r.data| - TAG;
    n >= 0 && r.data[n..] == Gcm.TagSpec(Gcm.InitSpec(r.key, DeriveIv(r.seed, r.chunk)), Aad(r.sid, r.chunk), r.data[..n])
  }

  /** A decrypt request succeeds exactly when its last 16 bytes are the tag of the rest. */
  lemma DecryptAcceptsIffTag(r: Request)
    requires WellFormed(r) && r.op == OP_DECRYPT
    ensures Handle(Serialize(r))[0] == 0 <==> TagMatches(r)
    ensures !TagMatches(r) ==> Handle(Serialize(r)) == Failure
  {
    hide ParseRequest, Serialize, DeriveIv, Aad, Be32Write, Gcm.TagSpec, Gcm.InitSpec, Gcm.Ctr;
    ParseSerialize(r);
  }

  /** The output bytes of a response. */
  function Payload(resp: seq<bv8>): (r: seq<bv8>)
    requires |resp| >= 5
  {
    resp[5..]
  }

  lemma AnswerLength(r: Request)
    requires WellFormed(r) && r.op == OP_ENCRYPT
    ensures |Payload(Handle(Serialize(r)))| == (|r.data| + TAG) % SIZES
  {
    hide ParseRequest, Serialize, DeriveIv, Aad, Be32Write, Gcm.EncryptSpec;
    ParseSerialize(r);
    EncryptedLength(r.key, DeriveIv(r.seed, r.chunk), Aad(r.sid, r.chunk), r.data);
  }

  /** The answer to an encrypt request as a decrypt request with the same header fields. */
  function SentBack(r: Request): (q: Request)
    requires WellFormed(r) && r.op == OP_ENCRYPT
    ensures WellFormed(q) && q.op == OP_DECRYPT
  {
    hide Handle, Serialize;
    AnswerLength(r);
    r.(op := OP_DECRYPT, data := Payload(Handle(Serialize(r))))
  }

  /** Status 0 and the original data. */
  predicate ComesBack(r: Request)
    requires WellFormed(r) && r.op == OP_ENCRYPT
  {
    hide Handle, Serialize, SentBack;
    Handle(Serialize(SentBack(r))) == [0] + Be32Write(|r.data|) + r.data
  }

  /**
   * Encrypting and sending the output back under the same header fields returns the data,
   * exactly as long as data and tag together fit the 32-bit length field of the frames.
   */
  lemma RoundTrip(r: Request)
    requires WellFormed(r) && r.op == OP_ENCRYPT
    ensures ComesBack(r) <==> |r.data| + TAG < SIZES
  {
    hide Handle, Serialize, Be32Write, Output, SentBack;
    HandleIs(SentBack(r));
    AnswerOpensIff(r);
    assert r.data[..|r.data|] == r.data;
    assert Failure[0] == 1;
  }

  /** What fits the 32-bit length. */
  function Cut(out: seq<bv8>): (r: seq<bv8>) {
    out[..|out| % SIZES]
  }

  lemma AnswerData(r: Request, q: Request, out: seq<bv8>)
    requires WellFormed(r) && r.op == OP_ENCRYPT && q == SentBack(r) && out == Seals(r).ct + Seals(r).tag
    ensures |Seals(r).ct| == |r.data| && q.data == Cut(out)
  {
    hide Handle, Serialize, DeriveIv, Aad, Be32Write, Gcm.EncryptSpec;
    EncryptedLength(r.key, DeriveIv(r.seed, r.chunk), Aad(r.sid, r.chunk), r.data);
    HandleIs(r);
  }

  lemma AnswerOpensIff(r: Request)
    requires WellFormed(r) && r.op == OP_ENCRYPT
    ensures Output(SentBack(r)) == if |r.data| + TAG < SIZES then Gcm.Opened(r.data) else Gcm.Rejected
  {
    hide Handle, Serialize, DeriveIv, Aad, Gcm.EncryptSpec, Gcm.DecryptSpec, Output;
    var iv, aad := DeriveIv(r.seed, r.chunk), Aad(r.sid, r.chunk);
    var e, q := Seals(r), SentBack(r);
    AnswerData(r, q, e.ct + e.tag);
    OutputByOp(q);
    if |r.data| + TAG < SIZES {
      assert q.data == e.ct + e.tag;
      assert q.data[..|q.data| - TAG] == e.ct && q.data[|q.data| - TAG..] == e.tag;
      Gcm.DecryptUndoesEncrypt(r.key, iv, aad, r.data, e.tag);
    } else {
      assert |q.data| < TAG;
    }
  }

  lemma HandleIs(r: Request)
    requires WellFormed(r)
    ensures Handle(Serialize(r)) == if Output(r).Opened? then Respond(Output(r).pt) else Failure
  {
    hide ParseRequest, Serialize, Output, Respond;
    ParseSerialize(r);
  }

  /** Its frame is no longer than the module can count. */
  ghost predicate Receivable(r: Request)
    requires WellFormed(r)
  {
    |Serialize(r)| < SIZES
  }

  lemma FrameLength(r: Request)
    requires WellFormed(r)
    ensures |Serialize(r)| == FIXED + |r.sid| + 4 + |r.data|
  {
    hide Be32Write, Be16Write;
  }

  /**
   * The data of a request that the module can receive always comes back out of the frame sent
   * back; but that frame is longer by the tag, and the module can receive it exactly when there
   * is room for that below 2^32.
   */
  lemma RoundTripOfReceivable(r: Request)
    requires WellFormed(r) && r.op == OP_ENCRYPT && Receivable(r)
    ensures ComesBack(r)
    ensures Receivable(SentBack(r)) <==> FIXED + |r.sid| + 4 + |r.data| + TAG < SIZES
  {
    hide ComesBack, Serialize, Handle, Payload;
    FrameLength(r);
    RoundTrip(r);
    AnswerLength(r);
    FrameLength(SentBack(r));
  }

  lemma EncryptedLength(key: seq<bv8>, iv: seq<bv8>, aad: seq<bv8>, pt: seq<bv8>)
    requires |key| == 32 && |iv| == 12
    ensures |Gcm.EncryptSpec(key, iv, aad, pt).ct| == |pt|
  {
  }

  /** No two counter blocks of one message coincide: any frame's length stays inside the bound. */
  lemma MessageCountersDistinct(r: Request, i: nat, j: nat)
    requires WellFormed(r) && i < j <= (|r.data| + 15) / 16
    ensures var b := Gcm.J0(DeriveIv(r.seed, r.chunk)); Gcm.IncN(b, i) != Gcm.IncN(b, j)
  {
    Gcm.CounterBlocksDistinct(Gcm.J0(DeriveIv(r.seed, r.chunk)), i, j);
  }

  /** Nor do counter blocks of two chunks under one seed, however long the chunks are. */
  lemma ChunkCountersDisjoint(seed: seq<bv8>, a: int32, b: int32, i: nat, j: nat)
    requires |seed| == 12 && a != b
    ensures Gcm.IncN(Gcm.J0(DeriveIv(seed, a)), i) != Gcm.IncN(Gcm.J0(DeriveIv(seed, b)), j)
  {
    hide DeriveIv, Gcm.IncN;
    var x, y := DeriveIv(seed, a), DeriveIv(seed, b);
    Gcm.CounterOfIncN(Gcm.J0(x), i);
    Gcm.CounterOfIncN(Gcm.J0(y), j);
    assert Gcm.J0(x)[..12] == x && Gcm.J0(y)[..12] == y;
    if x == y {
      DeriveIvInjective(seed, a, b);
    }
  }
}
