/** AES-256-GCM: the counter mode, the tag and the one-shot calls of wasm/aesgcm.h. */
module Gcm {
  import opened Bytes
  import opened Aes
  import Ghash

  // ----- the 32-bit counter -----

  function Counter(b: Block): (r: nat) {
    Be32Read(b[12..])
  }

  function WithCounter(b: Block, c: nat): (r: Block)
    requires c < 0x1_0000_0000
  {
    b[..12] + Be32Write(c)
  }

  /** fb_gcm_inc32: the last four bytes as a big-endian number, plus one modulo 2^32. */
  function Inc32(b: Block): (r: Block) {
    WithCounter(b, (Counter(b) + 1) % 0x1_0000_0000)
  }

  /** The counter block after n increments. */
  function IncN(b: Block, n: nat): (r: Block) {
    if n == 0 then b else Inc32(IncN(b, n - 1))
  }

  lemma CounterOfInc(b: Block)
    ensures Counter(Inc32(b)) == (Counter(b) + 1) % 0x1_0000_0000
    ensures Inc32(b)[..12] == b[..12]
  {
    hide Be32Read, Be32Write;
    var c := (Counter(b) + 1) % 0x1_0000_0000;
    Be32ReadWrite(c);
    assert Inc32(b)[12..] == Be32Write(c);
  }

  lemma {:induction false} CounterOfIncN(b: Block, n: nat)
    ensures Counter(IncN(b, n)) == (Counter(b) + n) % 0x1_0000_0000
    ensures IncN(b, n)[..12] == b[..12]
  {
    hide Counter, Inc32;
    if n != 0 {
      CounterOfIncN(b, n - 1);
      CounterOfInc(IncN(b, n - 1));
    } else {
      CounterBound(b);
    }
  }

  lemma CounterBound(b: Block)
    ensures Counter(b) < 0x1_0000_0000
  {
  }

  /** Fewer than 2^32 increments never repeat a block, J0 (no increment) included. */
  lemma CounterBlocksDistinct(b: Block, m: nat, n: nat)
    requires m < n < m + 0x1_0000_0000
    ensures IncN(b, m) != IncN(b, n)
  {
    hide Counter, IncN;
    CounterOfIncN(b, m);
    CounterOfIncN(b, n);
    ResiduesDiffer(Counter(b) + m, Counter(b) + n);
  }

  lemma ResiduesDiffer(x: nat, y: nat)
    requires x < y < x + 0x1_0000_0000
    ensures x % 0x1_0000_0000 != y % 0x1_0000_0000
  {
  }

  // ----- counter mode -----

  /** Key stream byte i of the message whose pre-counter block is b. */
  function KeyStream(w: Schedule, b: Block, i: nat): (r: bv8) {
    Cipher(w, IncN(b, i / 16 + 1))[i % 16]
  }

  function Ctr(w: Schedule, b: Block, data: seq<bv8>): (r: seq<bv8>)
    ensures |r| == |data|
    ensures forall i :: 0 <= i < |data| ==> r[i] == Add(data[i], KeyStream(w, b, i))
  {
    seq(|data|, i requires 0 <= i < |data| => Add(data[i], KeyStream(w, b, i)))
  }

  /** Counter mode is its own inverse. */
  lemma CtrInvolution(w: Schedule, b: Block, data: seq<bv8>)
    ensures Ctr(w, b, Ctr(w, b, data)) == data
  {
    hide KeyStream, Add;
    forall i | 0 <= i < |data|
      ensures Ctr(w, b, Ctr(w, b, data))[i] == data[i]
    {
      AddUndone(data[i], KeyStream(w, b, i));
    }
  }

  lemma {:induction false} IncNAdds(b: Block, m: nat, n: nat)
    ensures IncN(IncN(b, m), n) == IncN(b, m + n)
  {
    hide Inc32;
    if n != 0 {
      IncNAdds(b, m, n - 1);
    }
  }

  /** A block-aligned split is encrypted piece by piece, the counter carried over. */
  lemma CtrSplits(w: Schedule, b: Block, x: seq<bv8>, y: seq<bv8>)
    requires |x| % 16 == 0
    ensures Ctr(w, b, x + y) == Ctr(w, b, x) + Ctr(w, IncN(b, |x| / 16), y)
  {
    hide Cipher, IncN, Add;
    var c := IncN(b, |x| / 16);
    forall i | 0 <= i < |y|
      ensures KeyStream(w, b, |x| + i) == KeyStream(w, c, i)
    {
      IncNAdds(b, |x| / 16, i / 16 + 1);
      assert (|x| + i) / 16 == |x| / 16 + i / 16 && (|x| + i) % 16 == i % 16;
    }
    assert Ctr(w, b, x + y) == Ctr(w, b, x) + Ctr(w, c, y);
  }

  method GcmInc32(ctr: array<bv8>)
    requires ctr.Length == 16
    modifies ctr
    ensures ctr[..] == Inc32(old(ctr[..]))
  {
    hide Be32Read, Be32Write;
    var c := Be32Read(ctr[12..]);
    c := (c + 1) % 0x1_0000_0000;
    var bytes := Be32Write(c);
    ctr[12] := bytes[0];
    ctr[13] := bytes[1];
    ctr[14] := bytes[2];
    ctr[15] := bytes[3];
  }

  /** The inner loop: n bytes of input xored with the key block into out. */
  method XorBlock(ks: seq<bv8>, input: seq<bv8>, out: array<bv8>, at: nat)
    requires |input| <= |ks| && at + |input| <= out.Length
    modifies out
    ensures forall j :: at <= j < at + |input| ==> out[j] == Add(input[j - at], ks[j - at])
    ensures forall i :: 0 <= i < out.Length && !(at <= i < at + |input|) ==> out[i] == old(out[i])
  {
    hide Add;
    for i := 0 to |input|
      invariant forall j :: at <= j < at + i ==> out[j] == Add(input[j - at], ks[j - at])
      invariant forall k :: 0 <= k < out.Length && !(at <= k < at + i) ==> out[k] == old(out[k])
    {
      out[at + i] := Add(input[i], ks[i]);
    }
  }

  /** Encrypts or decrypts `input` into out[at..], leaving the counter at the last block used. */
  method CtrCrypt(w: Schedule, ctr: array<bv8>, input: seq<bv8>, out: array<bv8>, at: nat)
    requires ctr.Length == 16 && ctr != out && at + |input| <= out.Length
    modifies ctr, out
    ensures out[..] == old(out[..at]) + Ctr(w, old(ctr[..]), input) + old(out[at + |input|..])
    ensures ctr[..] == IncN(old(ctr[..]), (|input| + 15) / 16)
  {
    hide Cipher, IncN, Inc32, Add, KeyStream;
    ghost var b := ctr[..];
    var ks := new bv8[16];
    var done := 0;
    IncNZero(b);
    while done < |input|
      invariant done <= |input| && (done % 16 == 0 || done == |input|)
      invariant ctr[..] == IncN(b, (done + 15) / 16)
      invariant forall i :: 0 <= i < out.Length && !(at <= i < at + done) ==> out[i] == old(out[i])
      invariant forall j :: at <= j < at + done ==> out[j] == Add(input[j - at], KeyStream(w, b, j - at))
    {
      var n := if |input| - done < 16 then |input| - done else 16;
      GcmInc32(ctr);
      IncNNext(b, done / 16);
      EncryptBlock(w, ctr[..], ks);
      KeyStreamBlock(w, b, done / 16);
      assert done == 16 * (done / 16);
      var block := input[done..done + n];
      ghost var before := out[..];
      assert forall i :: done <= i < done + n ==> KeyStream(w, b, i) == ks[..][i - done];
      XorBlock(ks[..], block, out, at + done);
      forall j | at <= j < at + done + n
        ensures out[j] == Add(input[j - at], KeyStream(w, b, j - at))
      {
        if j < at + done {
          assert out[j] == before[j];
        } else {
          assert block[j - at - done] == input[j - at];
        }
      }
      done := done + n;
    }
  }

  lemma KeyStreamBlock(w: Schedule, b: Block, n: nat)
    ensures forall i :: 16 * n <= i < 16 * n + 16 ==> KeyStream(w, b, i) == Cipher(w, IncN(b, n + 1))[i - 16 * n]
  {
    hide Cipher, IncN;
  }

  lemma IncNZero(b: Block)
    ensures IncN(b, 0) == b
  {
  }

  lemma IncNNext(b: Block, n: nat)
    ensures Inc32(IncN(b, n)) == IncN(b, n + 1)
  {
  }

  // ----- context and tag -----

  datatype Context = Context(rk: Schedule, h: Block, s0: Block)

  function Zeros(): (z: Block)
    ensures forall i :: 0 <= i < 16 ==> z[i] == 0
  {
    seq(16, i => 0)
  }

  /** J0 for a 96-bit IV: the IV and a 32-bit one. */
  function J0(iv: seq<bv8>): (r: Block)
    requires |iv| == 12
  {
    iv + [0, 0, 0, 1]
  }

  function InitSpec(key: seq<bv8>, iv: seq<bv8>): (r: Context)
    requires |key| == 32 && |iv| == 12
  {
    var w := Expand(key);
    Context(w, Cipher(w, Zeros()), Cipher(w, J0(iv)))
  }

  method Init(key: seq<bv8>, iv: seq<bv8>) returns (ctx: Context)
    requires |key| == 32 && |iv| == 12
    ensures ctx == InitSpec(key, iv)
  {
    hide Cipher, Expand;
    var rk := new bv32[60];
    KeyExpand(key, rk);
    var block := new bv8[16];
    EncryptBlock(rk[..], Zeros(), block);
    var h: Block := block[..];
    EncryptBlock(rk[..], J0(iv), block);
    ctx := Context(rk[..], h, block[..]);
  }

  /** A 64-bit length in bits, big-endian, wrapping like uint64_t. */
  function BitLength(bytes: nat): (s: seq<bv8>)
    ensures |s| == 8
  {
    var bits := bytes * 8 % 0x1_0000_0000_0000_0000;
    Be32Write(bits / 0x1_0000_0000) + Be32Write(bits % 0x1_0000_0000)
  }

  function TagSpec(ctx: Context, aad: seq<bv8>, ct: seq<bv8>): (r: Block) {
    var y := Ghash.UpdateBytes(ctx.h, Zeros(), aad);
    var z := Ghash.UpdateBytes(ctx.h, y, ct);
    XorBytes(Ghash.UpdateBytes(ctx.h, z, BitLength(|aad|) + BitLength(|ct|)), ctx.s0)
  }

  method GcmTag(ctx: Context, aad: seq<bv8>, ct: seq<bv8>) returns (tag: Block)
    ensures tag == TagSpec(ctx, aad, ct)
  {
    hide Ghash.UpdateBytes, BitLength;
    var y := new bv8[16](i => 0);
    assert y[..] == Zeros();
    Ghash.GhashUpdate(ctx.h, aad, y);
    Ghash.GhashUpdate(ctx.h, ct, y);
    Ghash.GhashUpdate(ctx.h, BitLength(|aad|) + BitLength(|ct|), y);
    Ghash.XorInto(y, ctx.s0);
    tag := y[..];
  }

  /** Zero bytes up to the next block boundary. */
  function Filled(data: seq<bv8>): (r: seq<bv8>) {
    data + seq((16 - |data| % 16) % 16, i => 0)
  }

  lemma FilledLong(data: seq<bv8>)
    requires |data| >= 16
    ensures Ghash.Padded(Filled(data)) == Ghash.Padded(data) && Ghash.Rest(Filled(data)) == Filled(Ghash.Rest(data))
  {
    assert |data[16..]| % 16 == |data| % 16;
    assert Filled(data)[..16] == data[..16];
    assert Filled(data)[16..] == Filled(data[16..]);
  }

  lemma FilledShort(data: seq<bv8>)
    requires 0 < |data| < 16
    ensures Ghash.Padded(Filled(data)) == Ghash.Padded(data) && Ghash.Rest(Filled(data)) == Ghash.Rest(data)
  {
    assert |Filled(data)| == 16;
  }

  lemma {:induction false} BlocksFilled(data: seq<bv8>)
    ensures Ghash.Blocks(Filled(data)) == Ghash.Blocks(data)
    decreases |data|
  {
    hide BitsOf, Ghash.Padded;
    if data == [] {
      assert Filled(data) == data;
    } else if |data| >= 16 {
      FilledLong(data);
      BlocksFilled(Ghash.Rest(data));
    } else {
      FilledShort(data);
    }
  }

  /** Step 5 of section 7.1 of NIST SP 800-38D: one GHASH over A || 0* || C || 0* || len(A) || len(C). */
  lemma TagIsOneGhash(ctx: Context, aad: seq<bv8>, ct: seq<bv8>)
    ensures TagSpec(ctx, aad, ct) ==
      XorBytes(Ghash.UpdateBytes(ctx.h, Zeros(),
                                 Filled(aad) + Filled(ct) + (BitLength(|aad|) + BitLength(|ct|))), ctx.s0)
  {
    hide Ghash.UpdateBytes, XorBytes, BitLength, Filled;
    var a, c, lens := Filled(aad), Filled(ct), BitLength(|aad|) + BitLength(|ct|);
    UpdateFilled(ctx.h, Zeros(), aad);
    UpdateFilled(ctx.h, Ghash.UpdateBytes(ctx.h, Zeros(), a), ct);
    FilledAligned(aad);
    FilledAligned(ct);
    Ghash.UpdateComposes(ctx.h, Zeros(), a, c);
    Ghash.UpdateComposes(ctx.h, Zeros(), a + c, lens);
  }

  lemma UpdateFilled(h: Block, y: Block, data: seq<bv8>)
    ensures Ghash.UpdateBytes(h, y, Filled(data)) == Ghash.UpdateBytes(h, y, data)
  {
    hide Filled;
    BlocksFilled(data);
  }

  lemma FilledAligned(data: seq<bv8>)
    ensures |Filled(data)| % 16 == 0
  {
  }

  // ----- one-shot calls -----

  datatype Sealed = Sealed(ct: seq<bv8>, tag: Block)
  datatype Opened = Opened(pt: seq<bv8>) | Rejected

  function EncryptSpec(key: seq<bv8>, iv: seq<bv8>, aad: seq<bv8>, pt: seq<bv8>): (r: Sealed)
    requires |key| == 32 && |iv| == 12
  {
    var ctx := InitSpec(key, iv);
    var ct := Ctr(ctx.rk, J0(iv), pt);
    Sealed(ct, TagSpec(ctx, aad, ct))
  }

  function DecryptSpec(key: seq<bv8>, iv: seq<bv8>, aad: seq<bv8>, ct: seq<bv8>, tag: Block): (r: Opened)
    requires |key| == 32 && |iv| == 12
  {
    var ctx := InitSpec(key, iv);
    if tag == TagSpec(ctx, aad, ct) then Opened(Ctr(ctx.rk, J0(iv), ct)) else Rejected
  }

  /** Writes the ciphertext to out[at..] and returns the tag; nothing else of out changes. */
  method Encrypt(key: seq<bv8>, iv: seq<bv8>, aad: seq<bv8>, pt: seq<bv8>, out: array<bv8>, at: nat)
    returns (tag: Block)
    requires |key| == 32 && |iv| == 12 && at + |pt| <= out.Length
    modifies out
    ensures out[..] == old(out[..at]) + EncryptSpec(key, iv, aad, pt).ct + old(out[at + |pt|..])
    ensures tag == EncryptSpec(key, iv, aad, pt).tag
  {
    hide InitSpec, Ctr, TagSpec;
    var ctx := Init(key, iv);
    var ctr := StartCounter(iv);
    CtrCrypt(ctx.rk, ctr, pt, out, at);
    assert out[at..at + |pt|] == Ctr(ctx.rk, J0(iv), pt);
    tag := GcmTag(ctx, aad, out[at..at + |pt|]);
  }

  method StartCounter(iv: seq<bv8>) returns (ctr: array<bv8>)
    requires |iv| == 12
    ensures fresh(ctr) && ctr.Length == 16 && ctr[..] == J0(iv)
  {
    ctr := new bv8[16](i requires 0 <= i < 16 => J0(iv)[i]);
  }

  /** Accepts exactly when all sixteen tag bytes match, and only then writes the plaintext. */
  method Decrypt(key: seq<bv8>, iv: seq<bv8>, aad: seq<bv8>, ct: seq<bv8>, tag: Block, out: array<bv8>, at: nat)
    returns (ok: bool)
    requires |key| == 32 && |iv| == 12 && at + |ct| <= out.Length
    modifies out
    ensures ok == DecryptSpec(key, iv, aad, ct, tag).Opened?
    ensures ok ==> out[..] == old(out[..at]) + DecryptSpec(key, iv, aad, ct, tag).pt + old(out[at + |ct|..])
    ensures !ok ==> out[..] == old(out[..])
  {
    hide InitSpec, Ctr, TagSpec;
    var ctx := Init(key, iv);
    var expected := GcmTag(ctx, aad, ct);
    var same := SameTag(expected, tag);
    if !same {
      return false;
    }
    var ctr := StartCounter(iv);
    CtrCrypt(ctx.rk, ctr, ct, out, at);
    return true;
  }

  /** The comparison collects every difference before it looks at the result. */
  method SameTag(expected: Block, tag: Block) returns (same: bool)
    ensures same == (expected == tag)
  {
    var diff: bv8 := 0;
    for i := 0 to 16
      invariant diff == 0 <==> forall k :: 0 <= k < i ==> expected[k] == tag[k]
    {
      OrDiff(diff, expected[i], tag[i]);
      diff := diff | (expected[i] ^ tag[i]);
    }
    same := diff == 0;
  }

  lemma OrDiff(d: bv8, x: bv8, y: bv8)
    ensures d | (x ^ y) == 0 <==> d == 0 && x == y
  {
  }

  /** What encryption produces, decryption accepts and undoes; any other tag is rejected. */
  lemma DecryptUndoesEncrypt(key: seq<bv8>, iv: seq<bv8>, aad: seq<bv8>, pt: seq<bv8>, tag: Block)
    requires |key| == 32 && |iv| == 12
    ensures var e := EncryptSpec(key, iv, aad, pt);
      DecryptSpec(key, iv, aad, e.ct, tag) == if tag == e.tag then Opened(pt) else Rejected
  {
    hide Ctr, TagSpec, J0;
    var ctx := InitSpec(key, iv);
    CtrInvolution(ctx.rk, J0(iv), pt);
  }

  // ----- the one-shot calls, byte by byte -----

  /** Number c in the last four bytes, behind the IV. */
  lemma CounterAt(iv: seq<bv8>, n: nat)
    requires |iv| == 12
    ensures IncN(J0(iv), n) == iv + Be32Write((1 + n) % 0x1_0000_0000)
  {
    hide IncN, Be32Read, Be32Write;
    var b := J0(iv);
    CounterOfIncN(b, n);
    assert b[12..] == [0, 0, 0, 1] && b[..12] == iv;
    OneInWord();
    var c := IncN(b, n);
    Be32WriteRead(c[12..]);
    assert c == c[..12] + c[12..];
  }

  lemma OneInWord()
    ensures Be32Read([0, 0, 0, 1]) == 1
  {
  }

  /** The IV and a 32-bit number. */
  function CounterBlock(iv: seq<bv8>, n: nat): (b: Block)
    requires |iv| == 12
  {
    iv + Be32Write(n % 0x1_0000_0000)
  }

  /** Data and zero bytes up to a multiple of sixteen. */
  ghost predicate PaddedTo16(data: seq<bv8>, padded: seq<bv8>) {
    && |data| <= |padded| < |data| + 16 && |padded| % 16 == 0
    && padded[..|data|] == data && forall i :: |data| <= i < |padded| ==> padded[i] == 0
  }

  /** A length in bits, as a 64-bit number. */
  function BitsIn64(bytes: nat): (s: seq<bv8>)
    requires bytes < 0x2000_0000_0000_0000
  {
    Be32Write(8 * bytes / 0x1_0000_0000) + Be32Write(8 * bytes % 0x1_0000_0000)
  }

  /**
   * Section 7.1 of NIST SP 800-38D: one GHASH, under the encrypted zero block, of the padded data and
   * ciphertext and their lengths in bits, added to the encrypted counter block 1.
   */
  ghost predicate IsTag(key: seq<bv8>, iv: seq<bv8>, aad: seq<bv8>, ct: seq<bv8>, tag: Block)
    requires |key| == 32 && |iv| == 12 && |aad| < 0x2000_0000_0000_0000 && |ct| < 0x2000_0000_0000_0000
  {
    var zero: Block := [0, 0, 0, 0, 0, 0, 0, 0, 0, 0, 0, 0, 0, 0, 0, 0];
    exists a: seq<bv8>, c: seq<bv8> ::
      && PaddedTo16(aad, a) && PaddedTo16(ct, c)
      && tag == XorBytes(Ghash.UpdateBytes(Cipher(Expand(key), zero), zero, a + c + BitsIn64(|aad|) + BitsIn64(|ct|)),
                         Cipher(Expand(key), CounterBlock(iv, 1)))
  }

  /** Section 6.5: byte i is added to byte i % 16 of the encrypted counter block 2 + i / 16. */
  ghost predicate IsStream(key: seq<bv8>, iv: seq<bv8>, data: seq<bv8>, out: seq<bv8>)
    requires |key| == 32 && |iv| == 12
  {
    |out| == |data| && forall i :: 0 <= i < |data| ==>
      out[i] == data[i] ^ Cipher(Expand(key), CounterBlock(iv, 2 + i / 16))[i % 16]
  }

  lemma PaddedLength(n: nat, m: nat)
    ensures n <= m < n + 16 && m % 16 == 0 <==> m == n + (16 - n % 16) % 16
  {
  }

  lemma FilledIsPadded(data: seq<bv8>, padded: seq<bv8>)
    ensures PaddedTo16(data, padded) <==> padded == Filled(data)
  {
    PaddedLength(|data|, |padded|);
    if PaddedTo16(data, padded) {
      assert forall i :: 0 <= i < |data| ==> padded[i] == padded[..|data|][i];
    }
  }

  lemma LengthBytes(bytes: nat)
    requires bytes < 0x2000_0000_0000_0000
    ensures BitLength(bytes) == BitsIn64(bytes)
  {
    hide Be32Write;
  }

  lemma StartBlocks(iv: seq<bv8>)
    requires |iv| == 12
    ensures J0(iv) == CounterBlock(iv, 1) && Zeros() == [0, 0, 0, 0, 0, 0, 0, 0, 0, 0, 0, 0, 0, 0, 0, 0]
  {
    hide Be32Write, Be32Read;
    OneInWord();
    Be32WriteRead([0, 0, 0, 1]);
  }

  lemma TagIff(key: seq<bv8>, iv: seq<bv8>, aad: seq<bv8>, ct: seq<bv8>, tag: Block)
    requires |key| == 32 && |iv| == 12 && |aad| < 0x2000_0000_0000_0000 && |ct| < 0x2000_0000_0000_0000
    ensures IsTag(key, iv, aad, ct, tag) <==> tag == TagSpec(InitSpec(key, iv), aad, ct)
  {
    hide Cipher, Expand, Ghash.UpdateBytes, XorBytes, Filled, BitLength, BitsIn64, PaddedTo16, J0, CounterBlock, TagSpec;
    var a, c, m, n := Filled(aad), Filled(ct), BitsIn64(|aad|), BitsIn64(|ct|);
    forall p: seq<bv8>
      ensures PaddedTo16(aad, p) <==> p == a
      ensures PaddedTo16(ct, p) <==> p == c
    {
      FilledIsPadded(aad, p);
      FilledIsPadded(ct, p);
    }
    TagIsOneGhash(InitSpec(key, iv), aad, ct);
    LengthBytes(|aad|);
    LengthBytes(|ct|);
    StartBlocks(iv);
    assert a + c + (m + n) == a + c + m + n;
  }

  lemma StreamIff(key: seq<bv8>, iv: seq<bv8>, data: seq<bv8>, out: seq<bv8>)
    requires |key| == 32 && |iv| == 12
    ensures IsStream(key, iv, data, out) <==> out == Ctr(Expand(key), J0(iv), data)
  {
    hide Cipher, Expand, CounterBlock, J0, IncN;
    var r := Ctr(Expand(key), J0(iv), data);
    forall i | 0 <= i < |data|
      ensures r[i] == data[i] ^ Cipher(Expand(key), CounterBlock(iv, 2 + i / 16))[i % 16]
    {
      CounterIs(iv, i / 16 + 1);
    }
  }

  lemma CounterIs(iv: seq<bv8>, n: nat)
    requires |iv| == 12
    ensures IncN(J0(iv), n) == CounterBlock(iv, 1 + n)
  {
    hide IncN, Be32Write;
    CounterAt(iv, n);
  }

  /** Encryption gives exactly the standard's ciphertext and tag. */
  lemma EncryptIsStandard(key: seq<bv8>, iv: seq<bv8>, aad: seq<bv8>, pt: seq<bv8>)
    requires |key| == 32 && |iv| == 12 && |aad| < 0x2000_0000_0000_0000 && |pt| < 0x2000_0000_0000_0000
    ensures var e := EncryptSpec(key, iv, aad, pt);
      IsStream(key, iv, pt, e.ct) && IsTag(key, iv, aad, e.ct, e.tag)
  {
    hide Ctr, TagSpec, J0, IsTag, IsStream, Expand, Cipher;
    var e := EncryptSpec(key, iv, aad, pt);
    StreamIff(key, iv, pt, e.ct);
    TagIff(key, iv, aad, e.ct, e.tag);
  }

  /** Decryption accepts exactly the standard's tag, and then gives the standard's plaintext. */
  lemma DecryptIsStandard(key: seq<bv8>, iv: seq<bv8>, aad: seq<bv8>, ct: seq<bv8>, tag: Block)
    requires |key| == 32 && |iv| == 12 && |aad| < 0x2000_0000_0000_0000 && |ct| < 0x2000_0000_0000_0000
    ensures var d := DecryptSpec(key, iv, aad, ct, tag);
      (d.Opened? <==> IsTag(key, iv, aad, ct, tag)) && (d.Opened? ==> IsStream(key, iv, ct, d.pt))
  {
    hide Ctr, TagSpec, J0, IsTag, IsStream, Expand, Cipher;
    TagIff(key, iv, aad, ct, tag);
    var d := DecryptSpec(key, iv, aad, ct, tag);
    if d.Opened? {
      StreamIff(key, iv, ct, d.pt);
    }
  }
}
