/**
 * Base32 as src/auth/totp.c codes it (RFC 4648, section 6): a 32-bit accumulator that wraps,
 * a count of the bits in it that still matter, and a bounded output buffer.
 */
module Base32 {
  import opened Arithmetic
  import opened Common

  type Bits = seq<bool>

  // ----- bits and numbers -----

  function Pow2(k: nat): (r: nat) {
    if k == 0 then 1 else 2 * Pow2(k - 1)
  }

  /** The low w bits of n, most significant first. */
  function ToBits(n: nat, w: nat): (p: Bits)
    ensures |p| == w
  {
    if w == 0 then [] else ToBits(n / 2, w - 1) + [n % 2 == 1]
  }

  function FromBits(p: Bits): (r: nat) {
    if p == [] then 0 else 2 * FromBits(p[..|p| - 1]) + if p[|p| - 1] then 1 else 0
  }

  lemma {:induction false} FromToBits(n: nat, w: nat)
    requires n < Pow2(w)
    ensures FromBits(ToBits(n, w)) == n
  {
    if w > 0 {
      FromToBits(n / 2, w - 1);
      assert ToBits(n, w)[..w - 1] == ToBits(n / 2, w - 1);
    }
  }

  lemma {:induction false} ToFromBits(p: Bits)
    ensures FromBits(p) < Pow2(|p|) && ToBits(FromBits(p), |p|) == p
    decreases |p|
  {
    if p != [] {
      ToFromBits(p[..|p| - 1]);
    }
  }

  lemma {:induction false} FromBitsAppend(p: Bits, q: Bits)
    ensures FromBits(p + q) == FromBits(p) * Pow2(|q|) + FromBits(q)
    decreases |q|
  {
    if q == [] {
      assert p + q == p;
    } else {
      var r := q[..|q| - 1];
      FromBitsAppend(p, r);
      assert (p + q)[..|p + q| - 1] == p + r;
      assert FromBits(p) * Pow2(|q|) == 2 * (FromBits(p) * Pow2(|r|));
    }
  }

  /** The bits of a list of w-bit values. */
  function Unpack(vals: seq<nat>, w: nat): (r: Bits) {
    if vals == [] then [] else ToBits(vals[0], w) + Unpack(vals[1..], w)
  }

  lemma {:induction false} UnpackLength(vals: seq<nat>, w: nat)
    ensures |Unpack(vals, w)| == w * |vals|
  {
    if vals != [] {
      UnpackLength(vals[1..], w);
      assert w * |vals| == w + w * (|vals| - 1);
    }
  }

  // ----- the code, on values -----

  function Zeros(n: nat): (p: Bits)
    ensures |p| == n
  {
    seq(n, i => false)
  }

  /** Five-bit groups, the last one filled up with zeros. */
  function Groups(bits: Bits): (r: seq<nat>)
    decreases |bits|
  {
    if bits == [] then []
    else if |bits| < 5 then [FromBits(bits + Zeros(5 - |bits|))]
    else [FromBits(bits[..5])] + Groups(bits[5..])
  }

  /** Whole bytes; fewer than eight bits at the end are dropped. */
  function Bytes(bits: Bits): (r: seq<nat>)
    decreases |bits|
  {
    if |bits| < 8 then [] else [FromBits(bits[..8])] + Bytes(bits[8..])
  }

  lemma UnpackCons(v: nat, vals: seq<nat>, w: nat)
    ensures Unpack([v] + vals, w) == ToBits(v, w) + Unpack(vals, w)
  {
    assert ([v] + vals)[1..] == vals;
  }

  lemma FiveBits(p: Bits)
    requires |p| == 5
    ensures FromBits(p) < 32 && ToBits(FromBits(p), 5) == p
  {
    ToFromBits(p);
    assert Pow2(5) == 32;
  }

  lemma GroupsStep(bits: Bits)
    ensures Groups(bits) ==
      if bits == [] then []
      else if |bits| < 5 then [FromBits(bits + Zeros(5 - |bits|))]
      else [FromBits(bits[..5])] + Groups(bits[5..])
  {
  }

  /** How many bits are missing from the last group. */
  function Missing(n: nat): (m: nat)
    ensures m < 5
  {
    (5 - n % 5) % 5
  }

  lemma MissingIs(n: nat)
    ensures n >= 5 ==> Missing(n) == Missing(n - 5)
    ensures n == 0 ==> Missing(n) == 0
    ensures 0 < n < 5 ==> Missing(n) == 5 - n
  {
  }

  /** Unpacked again, the groups are the bits and fewer than five zeros. */
  lemma {:induction false} GroupsUnpacked(bits: Bits)
    ensures Unpack(Groups(bits), 5) == bits + Zeros(Missing(|bits|))
    decreases |bits|
  {
    hide FromBits, ToBits, Unpack, Groups, Missing;
    UnpackNothing(5);
    GroupsStep(bits);
    MissingIs(|bits|);
    if bits == [] {
      assert bits + Zeros(0) == bits;
    } else if |bits| < 5 {
      var p := bits + Zeros(5 - |bits|);
      FiveBits(p);
      UnpackCons(FromBits(p), [], 5);
      assert [FromBits(p)] + [] == [FromBits(p)] && p + [] == p;
    } else {
      var p, rest := bits[..5], bits[5..];
      FiveBits(p);
      GroupsUnpacked(rest);
      UnpackCons(FromBits(p), Groups(rest), 5);
      var pad := Zeros(Missing(|bits|));
      assert p + (rest + pad) == bits + pad;
    }
  }

  lemma UnpackNothing(w: nat)
    ensures Unpack([], w) == []
  {
  }

  lemma {:induction false} GroupsShape(bits: Bits)
    ensures |Groups(bits)| == (|bits| + 4) / 5
    ensures forall i :: 0 <= i < |Groups(bits)| ==> Groups(bits)[i] < 32
    decreases |bits|
  {
    hide FromBits, ToBits;
    if bits != [] {
      if |bits| < 5 {
        FiveBits(bits + Zeros(5 - |bits|));
      } else {
        FiveBits(bits[..5]);
        GroupsShape(bits[5..]);
      }
    }
  }

  lemma ByteBack(b: byte)
    ensures FromBits(ToBits(b, 8)) == b
  {
    assert Pow2(8) == 256;
    FromToBits(b, 8);
  }

  lemma BytesPop(p: Bits, rest: Bits)
    requires |p| >= 8
    ensures Bytes(p + rest) == [FromBits(p[..8])] + Bytes(p[8..] + rest)
  {
    assert (p + rest)[..8] == p[..8] && (p + rest)[8..] == p[8..] + rest;
  }

  lemma {:induction false} BytesOfUnpacked(x: seq<byte>, pad: Bits)
    requires |pad| < 8
    ensures Bytes(Unpack(x, 8) + pad) == x
    decreases |x|
  {
    if x == [] {
      assert Unpack(x, 8) + pad == pad;
    } else {
      hide Unpack, Bytes, FromBits, ToBits;
      var p, rest := ToBits(x[0], 8), Unpack(x[1..], 8) + pad;
      assert [x[0]] + x[1..] == x;
      UnpackCons(x[0], x[1..], 8);
      assert Unpack(x, 8) + pad == p + rest;
      BytesPop(p, rest);
      assert p[..8] == p && p[8..] + rest == rest;
      ByteBack(x[0]);
      BytesOfUnpacked(x[1..], pad);
    }
  }

  /** The bit stream of any bytes comes back from its five-bit groups. */
  lemma GroupsRoundTrip(x: seq<byte>)
    ensures Bytes(Unpack(Groups(Unpack(x, 8)), 5)) == x
  {
    GroupsUnpacked(Unpack(x, 8));
    BytesOfUnpacked(x, Zeros(Missing(|Unpack(x, 8)|)));
  }

  // ----- characters -----

  /** ABCDEFGHIJKLMNOPQRSTUVWXYZ234567 */
  function Letter(v: nat): (r: byte)
    requires v < 32
  {
    if v < 26 then 65 + v else 50 + (v - 26)
  }

  /** The alphabet of section 6 of RFC 4648, in order. */
  lemma Alphabet(v: nat)
    requires v < 32
    ensures Letter(v) ==
      [65, 66, 67, 68, 69, 70, 71, 72, 73, 74, 75, 76, 77, 78, 79, 80, 81, 82, 83, 84, 85, 86, 87, 88, 89, 90,
       50, 51, 52, 53, 54, 55][v]
  {
  }

  function Value(c: byte): (r: int) {
    if 65 <= c <= 90 then c - 65
    else if 97 <= c <= 122 then c - 97
    else if 50 <= c <= 55 then c - 50 + 26
    else -1
  }

  /** Padding and white space. */
  predicate IsSkipped(c: byte) {
    c == 61 || c == 32 || c == 10 || c == 13 || c == 9
  }

  /** Skipped are padding, space, line feed, carriage return and tab. */
  lemma SkippedAre(c: byte)
    ensures IsSkipped(c) <==> c in {61, 32, 10, 13, 9}
  {
  }

  /** A character has a value exactly if it is a letter of the alphabet, in either case. */
  lemma ValueIff(c: byte, v: nat)
    requires v < 32
    ensures Value(c) == v <==> c == Letter(v) || (v < 26 && c == Letter(v) + 32)
    ensures Value(c) < 32
  {
  }

  function Letters(vals: seq<nat>): (text: seq<byte>)
    requires forall i :: 0 <= i < |vals| ==> vals[i] < 32
    ensures |text| == |vals| && forall i :: 0 <= i < |vals| ==> text[i] == Letter(vals[i])
  {
    seq(|vals|, i requires 0 <= i < |vals| => Letter(vals[i]))
  }

  /** The values of a text, or None at a foreign character. */
  function Values(text: seq<byte>): (res: Option<seq<nat>>) {
    if text == [] then Some([])
    else if IsSkipped(text[0]) then Values(text[1..])
    else if Value(text[0]) < 0 then None
    else
      var v: nat, r := Value(text[0]), Values(text[1..]);
      if r.None? then None else Some([v] + r.value)
  }

  function Encoded(x: seq<byte>): (r: seq<byte>) {
    GroupsShape(Unpack(x, 8));
    Letters(Groups(Unpack(x, 8)))
  }

  function Decoded(text: seq<byte>): (r: Option<seq<nat>>) {
    var v := Values(text);
    if v.None? then None else Some(Bytes(Unpack(v.value, 5)))
  }

  lemma {:induction false} ValuesOfLetters(vals: seq<nat>)
    requires forall i :: 0 <= i < |vals| ==> vals[i] < 32
    ensures Values(Letters(vals)) == Some(vals)
    decreases |vals|
  {
    if vals != [] {
      assert Letters(vals)[1..] == Letters(vals[1..]);
      ValuesOfLetters(vals[1..]);
      assert Value(Letter(vals[0])) == vals[0] && !IsSkipped(Letter(vals[0]));
      assert [vals[0]] + vals[1..] == vals;
    }
  }

  /** Decoding undoes encoding for every byte string. */
  lemma RoundTrip(x: seq<byte>)
    ensures Decoded(Encoded(x)) == Some(x)
  {
    GroupsShape(Unpack(x, 8));
    ValuesOfLetters(Groups(Unpack(x, 8)));
    GroupsRoundTrip(x);
  }

  lemma KnownBits(x: seq<byte>, y: seq<byte>)
    requires x == [102] && y == [102, 111]
    ensures Unpack(x, 8) == [false, true, true, false, false, true, true, false]
    ensures Unpack(y, 8) == [false, true, true, false, false, true, true, false]
                            + [false, true, true, false, true, true, true, true]
  {
    hide ToBits, Unpack;
    EightBits102();
    EightBits111();
    UnpackNothing(8);
    assert x == [102] + [] && y == [102] + [111] && [111] + [] == [111];
    UnpackCons(102, [], 8);
    UnpackCons(111, [], 8);
    UnpackCons(102, [111], 8);
  }

  /** Two of the vectors of section 10 of RFC 4648: `f` is MY and `fo` is MZXQ. */
  lemma KnownEncodings()
    ensures Encoded([102]) == [77, 89]
    ensures Encoded([102, 111]) == [77, 90, 88, 81]
  {
    hide ToBits, Groups, Unpack;
    KnownBits([102], [102, 111]);
    KnownGroups();
    var p: seq<nat>, q: seq<nat> := [12, 24], [12, 25, 23, 16];
    assert Letters(p) == [77, 89];
    assert Letters(q) == [77, 90, 88, 81];
  }

  lemma EightBits102()
    ensures ToBits(102, 8) == [false, true, true, false, false, true, true, false]
  {
  }

  lemma EightBits111()
    ensures ToBits(111, 8) == [false, true, true, false, true, true, true, true]
  {
  }

  lemma FromFive(a: bool, b: bool, c: bool, d: bool, e: bool)
    ensures FromBits([a, b, c, d, e]) ==
      (if a then 16 else 0) + (if b then 8 else 0) + (if c then 4 else 0) + (if d then 2 else 0) + (if e then 1 else 0)
  {
    hide FromBits;
    FromNothing();
    assert [] + [a] == [a] && [a] + [b] == [a, b] && [a, b] + [c] == [a, b, c];
    assert [a, b, c] + [d] == [a, b, c, d] && [a, b, c, d] + [e] == [a, b, c, d, e];
    FromNext([], a);
    FromNext([a], b);
    FromNext([a, b], c);
    FromNext([a, b, c], d);
    FromNext([a, b, c, d], e);
  }

  lemma FromNothing()
    ensures FromBits([]) == 0
  {
  }

  lemma FromNext(p: Bits, b: bool)
    ensures FromBits(p + [b]) == 2 * FromBits(p) + if b then 1 else 0
  {
    assert (p + [b])[..|p|] == p;
  }

  /** The first group of a longer list. */
  lemma FirstGroup(a: bool, b: bool, c: bool, d: bool, e: bool, rest: Bits)
    ensures Groups([a, b, c, d, e] + rest) == [FromBits([a, b, c, d, e])] + Groups(rest)
  {
    hide FromBits, Groups;
    var p := [a, b, c, d, e] + rest;
    GroupsStep(p);
    assert p[..5] == [a, b, c, d, e] && p[5..] == rest;
  }

  lemma KnownGroups()
    ensures Groups([false, true, true, false, false, true, true, false]) == [12, 24]
    ensures Groups([false, true, true, false, false, true, true, false]
                   + [false, true, true, false, true, true, true, true]) == [12, 25, 23, 16]
  {
    hide FromBits, Groups;
    FirstGroup(false, true, true, false, false, [true, true, false]);
    GroupsStep([true, true, false]);
    assert [false, true, true, false, false] + [true, true, false] == [false, true, true, false, false, true, true, false];
    assert [true, true, false] + Zeros(2) == [true, true, false, false, false];
    FirstGroup(false, true, true, false, false, [true, true, false, false, true] + ([true, false, true, true, true] + [true]));
    FirstGroup(true, true, false, false, true, [true, false, true, true, true] + [true]);
    FirstGroup(true, false, true, true, true, [true]);
    GroupsStep([true]);
    assert [true] + Zeros(4) == [true, false, false, false, false];
    FromFive(false, true, true, false, false);
    FromFive(true, true, false, false, false);
    FromFive(true, true, false, false, true);
    FromFive(true, false, true, true, true);
    FromFive(true, false, false, false, false);
    assert [false, true, true, false, false, true, true, false] + [false, true, true, false, true, true, true, true]
        == [false, true, true, false, false] + ([true, true, false, false, true] + ([true, false, true, true, true] + [true]));
  }

  lemma EncodedLength(x: seq<byte>)
    ensures |Encoded(x)| == (8 * |x| + 4) / 5
  {
    GroupsShape(Unpack(x, 8));
    UnpackLength(x, 8);
  }

  lemma {:induction false} ValuesSplit(a: seq<byte>, b: seq<byte>)
    ensures Values(a + b) ==
      if Values(a).Some? && Values(b).Some? then Some(Values(a).value + Values(b).value) else None
    decreases |a|
  {
    if a == [] {
      assert a + b == b;
      assert Values(b).Some? ==> [] + Values(b).value == Values(b).value;
    } else {
      assert (a + b)[1..] == a[1..] + b;
      ValuesSplit(a[1..], b);
      if Values(a).Some? && Values(b).Some? && !IsSkipped(a[0]) {
        assert [Value(a[0])] + (Values(a[1..]).value + Values(b).value) == Values(a).value + Values(b).value;
      }
    }
  }

  function SwapCase(c: byte): (r: byte) {
    if 65 <= c <= 90 then c + 32 else if 97 <= c <= 122 then c - 32 else c
  }

  /** Inserting a skipped character anywhere, or changing the case of any letter, changes nothing. */
  lemma DecodingIgnores(a: seq<byte>, c: byte, b: seq<byte>)
    ensures IsSkipped(c) ==> Decoded(a + [c] + b) == Decoded(a + b)
    ensures Decoded(a + [SwapCase(c)] + b) == Decoded(a + [c] + b)
  {
    hide Unpack, Bytes, Values, Value, IsSkipped, SwapCase;
    SwapKeepsValue(c);
    ValuesOfOne(c);
    ValuesOfOne(SwapCase(c));
    ValuesSplit(a + [c], b);
    ValuesSplit(a + [SwapCase(c)], b);
    ValuesSplit(a, [c]);
    ValuesSplit(a, [SwapCase(c)]);
    ValuesSplit(a, b);
    if Values(a).Some? {
      assert Values(a).value + [] == Values(a).value;
    }
  }

  lemma SwapKeepsValue(c: byte)
    ensures IsSkipped(SwapCase(c)) == IsSkipped(c) && Value(SwapCase(c)) == Value(c)
  {
  }

  lemma ValuesOfOne(c: byte)
    ensures Values([c]) == if IsSkipped(c) then Some([]) else if Value(c) < 0 then None else Some([Value(c)])
  {
    assert [c][1..] == [];
    if !IsSkipped(c) && Value(c) >= 0 {
      var v: nat := Value(c);
      assert [v] + [] == [v];
    }
  }

  // ----- the accumulator -----

  const WORD := 0x1_0000_0000

  /** The low bits of the accumulator are the pending ones; whatever is above them is stale. */
  predicate Pending(buffer: nat, p: Bits) {
    Pow2(|p|) > 0 && buffer % Pow2(|p|) == FromBits(p)
  }

  lemma TwiceProduct(a: nat, c: nat)
    ensures a * (2 * c) == 2 * (a * c)
  {
  }

  lemma {:induction false} Pow2Add(a: nat, b: nat)
    ensures Pow2(a + b) == Pow2(a) * Pow2(b) && Pow2(b) > 0
  {
    if b > 0 {
      Pow2Add(a, b - 1);
      TwiceProduct(Pow2(a), Pow2(b - 1));
    }
  }

  lemma WordIsPower()
    ensures Pow2(32) == WORD && Pow2(5) == 32 && Pow2(8) == 256
  {
    assert Pow2(5) == 32;
    assert Pow2(8) == 256;
    Pow2Add(8, 8);
    Pow2Add(16, 16);
  }

  /** Shifting w bits in keeps the pending ones, although the word wraps. */
  lemma Push(buffer: nat, p: Bits, v: nat, w: nat)
    requires Pending(buffer, p) && v < Pow2(w) && |p| + w <= 32
    ensures Pending((buffer * Pow2(w) + v) % WORD, p + ToBits(v, w))
  {
    hide Pow2, ToBits, FromBits;
    var n := |p| + w;
    WordIsPower();
    Pow2Add(|p|, w);
    Pow2Add(32 - n, n);
    ModMod(buffer * Pow2(w) + v, Pow2(32 - n), Pow2(n));
    ModPush(buffer, Pow2(|p|), Pow2(w), v);
    FromBitsAppend(p, ToBits(v, w));
    FromToBits(v, w);
  }

  /** Reading the oldest w pending bits, and what is pending then. */
  lemma Pop(buffer: nat, p: Bits, w: nat)
    requires Pending(buffer, p) && w <= |p|
    ensures Pow2(|p| - w) > 0 && Pow2(w) > 0
    ensures buffer / Pow2(|p| - w) % Pow2(w) == FromBits(p[..w]) && Pending(buffer, p[w..])
  {
    hide Pow2, FromBits;
    var k := |p| - w;
    Pow2Add(k, w);
    Pow2Add(w, k);
    ModPop(buffer, Pow2(k), Pow2(w));
    assert p == p[..w] + p[w..];
    FromBitsAppend(p[..w], p[w..]);
    ToFromBits(p[w..]);
    QuotientRemainder(Pow2(k), FromBits(p[..w]), FromBits(p[w..]));
  }

  lemma NothingPending(buffer: nat)
    ensures Pending(buffer, [])
  {
  }

  // ----- totp_base32_encode -----

  lemma GroupsPop(p: Bits, rest: Bits)
    requires |p| >= 5
    ensures Groups(p + rest) == [FromBits(p[..5])] + Groups(p[5..] + rest)
  {
    assert (p + rest)[..5] == p[..5] && (p + rest)[5..] == p[5..] + rest;
  }

  lemma UnpackStep(x: seq<byte>, i: nat, p: Bits)
    requires i < |x|
    ensures p + Unpack(x[i..], 8) == p + ToBits(x[i], 8) + Unpack(x[i + 1..], 8)
  {
    assert x[i..][1..] == x[i + 1..];
  }

  /** Inner loop: writes letters while five bits are pending; gives up when the buffer is full. */
  method Drain(buffer: nat, ghost p: Bits, bits: nat, out: array<byte>, cap: nat, o: nat, ghost vals: seq<nat>, ghost rest: Bits)
    returns (ok: bool, bits': nat, o': nat, ghost p': Bits, ghost vals': seq<nat>)
    requires Pending(buffer, p) && |p| == bits <= 12 && o == |vals| && cap <= out.Length
    requires Written(out, vals, cap)
    modifies out
    ensures ok ==> |p'| == bits' < 5 && Pending(buffer, p') && o' == |vals'| && Written(out, vals', cap)
    ensures ok ==> vals + Groups(p + rest) == vals' + Groups(p' + rest)
    ensures !ok ==> cap <= |vals + Groups(p + rest)|
  {
    hide Pow2, Groups, FromBits, Pending;
    ok, bits', o', p', vals' := true, bits, o, p, vals;
    WordIsPower();
    while bits' >= 5
      invariant |p'| == bits' <= 12 && Pending(buffer, p') && o' == |vals'| && Written(out, vals', cap)
      invariant vals + Groups(p + rest) == vals' + Groups(p' + rest)
    {
      Pop(buffer, p', 5);
      var v := FromBits(p'[..5]);
      FiveBits(p'[..5]);
      ghost var q := p'[5..];
      GroupsPop(p', rest);
      assert vals' + ([v] + Groups(q + rest)) == vals' + [v] + Groups(q + rest);
      if o' + 1 >= cap {
        ok := false;
        return;
      }
      out[o'] := Letter(buffer / Pow2(bits' - 5) % 32);
      o' := o' + 1;
      vals', p', bits' := vals' + [v], q, bits' - 5;
    }
  }

  /** The letters of these values fill the front of the buffer, short of its last byte. */
  ghost predicate Written(out: array<byte>, vals: seq<nat>, cap: nat)
    reads out
  {
    && cap <= out.Length && (vals == [] || |vals| < cap)
    && forall i :: 0 <= i < |vals| ==> vals[i] < 32 && out[i] == Letter(vals[i])
  }

  /**
   * Writes the encoding and a NUL and returns its length, or returns 0 when the buffer has no
   * more room than the text alone.
   */
  method Encode(x: seq<byte>, out: array<byte>, cap: nat) returns (r: nat)
    requires cap <= out.Length
    modifies out
    ensures r == if |Encoded(x)| < cap then |Encoded(x)| else 0
    ensures |Encoded(x)| < cap ==> out[..r] == Encoded(x) && out[r] == 0
  {
    hide Pow2, Groups, FromBits, ToBits, Unpack, Pending, Encoded;
    ghost var all := Groups(Unpack(x, 8));
    EncodedIs(x);
    if cap == 0 {
      return 0;
    }
    var o: nat, buffer: nat, bits: nat := 0, 0, 0;
    ghost var p: Bits, vals: seq<nat> := [], [];
    NothingPending(0);
    WordIsPower();
    assert [] + Unpack(x[0..], 8) == Unpack(x, 8) by { assert x[0..] == x; }
    for i := 0 to |x|
      invariant |p| == bits < 5 && Pending(buffer, p) && o == |vals| && Written(out, vals, cap)
      invariant vals + Groups(p + Unpack(x[i..], 8)) == all
    {
      ghost var rest := Unpack(x[i + 1..], 8);
      UnpackStep(x, i, p);
      Push(buffer, p, x[i], 8);
      p := p + ToBits(x[i], 8);
      buffer := (buffer * 256 + x[i]) % WORD;
      bits := bits + 8;
      var ok;
      ok, bits, o, p, vals := Drain(buffer, p, bits, out, cap, o, vals, rest);
      if !ok {
        return 0;
      }
    }
    assert p + Unpack(x[|x|..], 8) == p by {
      UnpackNothing(8);
      assert x[|x|..] == [] && p + [] == p;
    }
    LastGroup(p);
    if bits > 0 {
      if o + 1 >= cap {
        return 0;
      }
      PadLast(buffer, p);
      out[o] := Letter(buffer * Pow2(5 - bits) % WORD % 32);
      o := o + 1;
      vals := vals + Groups(p);
    }
    assert vals == all;
    out[o] := 0;
    return o;
  }

  lemma EncodedIs(x: seq<byte>)
    ensures var all := Groups(Unpack(x, 8));
      |Encoded(x)| == |all| && forall i :: 0 <= i < |all| ==> all[i] < 32 && Encoded(x)[i] == Letter(all[i])
  {
    GroupsShape(Unpack(x, 8));
  }

  lemma LastGroup(p: Bits)
    requires |p| < 5
    ensures Groups(p) == if p == [] then [] else [FromBits(p + Zeros(5 - |p|))]
  {
  }

  /** The last letter: pending bits shifted up to five. */
  lemma PadLast(buffer: nat, p: Bits)
    requires Pending(buffer, p) && 0 < |p| < 5
    ensures buffer * Pow2(5 - |p|) % WORD % 32 == FromBits(p + Zeros(5 - |p|)) < 32
  {
    hide Pow2, FromBits, ToBits;
    var w := 5 - |p|;
    WordIsPower();
    Pow2Add(0, w);
    ZeroBits(w);
    Push(buffer, p, 0, w);
    FiveBits(p + Zeros(w));
  }

  lemma {:induction false} ZeroBits(w: nat)
    ensures ToBits(0, w) == Zeros(w)
  {
    if w > 0 {
      ZeroBits(w - 1);
      assert Zeros(w - 1) + [false] == Zeros(w);
    }
  }

  // ----- totp_base32_decode -----

  lemma EightBits(p: Bits)
    requires |p| == 8
    ensures FromBits(p) < 256
  {
    ToFromBits(p);
    assert Pow2(8) == 256;
  }

  lemma BytesDone(p: Bits)
    requires |p| < 8
    ensures Bytes(p + Unpack([], 5)) == []
  {
    assert p + [] == p;
  }

  /** What is still to come, once these bytes are out and these bits pending. */
  ghost predicate Ahead(text: seq<byte>, got: seq<byte>, p: Bits, rest: seq<byte>) {
    && (Values(text).Some? <==> Values(rest).Some?)
    && (Values(rest).Some? ==> Decoded(text) == Some(got + Bytes(p + Unpack(Values(rest).value, 5))))
  }

  lemma AheadStart(text: seq<byte>)
    ensures Ahead(text, [], [], text)
  {
    if Values(text).Some? {
      var u := Unpack(Values(text).value, 5);
      assert [] + u == u;
      assert [] + Bytes(u) == Bytes(u);
    }
  }

  lemma AheadValue(text: seq<byte>, got: seq<byte>, p: Bits, rest: seq<byte>)
    requires Ahead(text, got, p, rest) && rest != [] && !IsSkipped(rest[0])
    ensures Value(rest[0]) < 0 ==> Values(text).None?
    ensures Value(rest[0]) >= 0 ==> Ahead(text, got, p + ToBits(Value(rest[0]), 5), rest[1..])
  {
    hide Bytes, ToBits, Unpack;
    if Value(rest[0]) >= 0 && Values(rest).Some? {
      var v: nat, vs := Value(rest[0]), Values(rest[1..]).value;
      UnpackCons(v, vs, 5);
      assert p + (ToBits(v, 5) + Unpack(vs, 5)) == p + ToBits(v, 5) + Unpack(vs, 5);
    }
  }

  lemma SkipAhead(text: seq<byte>, got: seq<byte>, p: Bits, rest: seq<byte>)
    requires Ahead(text, got, p, rest) && rest != [] && IsSkipped(rest[0])
    ensures Ahead(text, got, p, rest[1..])
  {
  }

  lemma AheadFails(text: seq<byte>, got: seq<byte>, p: Bits, rest: seq<byte>)
    requires Ahead(text, got, p, rest)
    ensures Values(rest).None? ==> Decoded(text).None?
  {
  }

  lemma AheadEnd(text: seq<byte>, got: seq<byte>, p: Bits)
    requires Ahead(text, got, p, []) && |p| < 8
    ensures Decoded(text) == Some(got)
  {
    BytesDone(p);
    assert got + [] == got;
  }

  lemma AheadByte(text: seq<byte>, got: seq<byte>, p: Bits, rest: seq<byte>)
    requires Ahead(text, got, p, rest) && |p| >= 8
    ensures FromBits(p[..8]) < 256 && Ahead(text, got + [FromBits(p[..8])], p[8..], rest)
    ensures Values(rest).Some? ==> |got| < |Decoded(text).value|
  {
    hide Bytes, Unpack, FromBits, Values;
    EightBits(p[..8]);
    if Values(rest).Some? {
      var u := Unpack(Values(rest).value, 5);
      BytesPop(p, u);
      assert got + ([FromBits(p[..8])] + Bytes(p[8..] + u)) == got + [FromBits(p[..8])] + Bytes(p[8..] + u);
    }
  }

  /**
   * Writes the decoded bytes and returns how many, or returns 0 at a foreign character or when
   * they do not fit. The text is a C string up to its NUL.
   */
  method Decode(text: seq<byte>, out: array<byte>, cap: nat) returns (r: nat)
    requires cap <= out.Length && 0 !in text
    modifies out
    ensures r == if Decoded(text).Some? && |Decoded(text).value| <= cap then |Decoded(text).value| else 0
    ensures r > 0 ==> out[..r] == Decoded(text).value
  {
    hide Pow2, Bytes, FromBits, ToBits, Unpack, Pending, Ahead;
    AheadStart(text);
    if cap == 0 {
      return 0;
    }
    var o: nat, buffer: nat, bits: nat := 0, 0, 0;
    ghost var p: Bits := [];
    NothingPending(0);
    WordIsPower();
    assert text[0..] == text;
    for i := 0 to |text|
      invariant |p| == bits < 8 && Pending(buffer, p) && o <= cap
      invariant Ahead(text, out[..o], p, text[i..])
    {
      var rest, got := text[i..], out[..o];
      assert rest[1..] == text[i + 1..];
      if IsSkipped(text[i]) {
        SkipAhead(text, got, p, rest);
        continue;
      }
      AheadValue(text, got, p, rest);
      if Value(text[i]) < 0 {
        return 0;
      }
      var v: nat := Value(text[i]);
      Push(buffer, p, v, 5);
      p := p + ToBits(v, 5);
      buffer := (buffer * 32 + v) % WORD;
      bits := bits + 5;
      if bits >= 8 {
        AheadByte(text, got, p, rest[1..]);
        if o >= cap {
          AheadFails(text, got, p, rest[1..]);
          return 0;
        }
        Pop(buffer, p, 8);
        out[o] := buffer / Pow2(bits - 8) % 256;
        o := o + 1;
        assert out[..o] == got + [FromBits(p[..8])];
        p, bits := p[8..], bits - 8;
      }
    }
    AheadEnd(text, out[..o], p);
    return o;
  }
}
