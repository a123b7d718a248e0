/**
 * Strings crossing into WebAssembly: writeUtf8 and readUtf8 of public/js/post-translate.js,
 * and the text buffers of wasm-client/client_core_module.c. A string is its 16-bit code units.
 */
module Wtf8 {
  import opened Common

  type Unit = bv16
  type Byte = bv8

  predicate IsHigh(c: Unit) {
    0xD800 <= c <= 0xDBFF
  }

  predicate IsLow(c: Unit) {
    0xDC00 <= c <= 0xDFFF
  }

  // ----- the encoder's and decoder's bit patterns -----

  function Two(c: Unit): (r: (Byte, Byte)) {
    (0xC0 | ((c >> 6) & 0xFF) as Byte, 0x80 | (c & 0x3F) as Byte)
  }

  function Three(c: Unit): (r: (Byte, Byte, Byte)) {
    (0xE0 | ((c >> 12) & 0xFF) as Byte, 0x80 | ((c >> 6) & 0x3F) as Byte, 0x80 | (c & 0x3F) as Byte)
  }

  /** The scalar value of a surrogate pair. */
  function Scalar(c: Unit, d: Unit): (r: bv32) {
    0x10000 + (((c & 0x3FF) as bv32 << 10) | (d & 0x3FF) as bv32)
  }

  function Four(cp: bv32): (r: (Byte, Byte, Byte, Byte)) {
    (0xF0 | ((cp >> 18) & 0xFF) as Byte, 0x80 | ((cp >> 12) & 0x3F) as Byte,
     0x80 | ((cp >> 6) & 0x3F) as Byte, 0x80 | (cp & 0x3F) as Byte)
  }

  function UnTwo(a: Byte, b: Byte): (r: Unit) {
    ((a & 0x1F) as Unit << 6) | (b & 0x3F) as Unit
  }

  function UnThree(a: Byte, b: Byte, c: Byte): (r: Unit) {
    ((a & 0x0F) as Unit << 12) | ((b & 0x3F) as Unit << 6) | (c & 0x3F) as Unit
  }

  function UnFour(a: Byte, b: Byte, c: Byte, d: Byte): (r: bv32) {
    ((a & 0x07) as bv32 << 18) | ((b & 0x3F) as bv32 << 12) | ((c & 0x3F) as bv32 << 6) | (d & 0x3F) as bv32
  }

  /** String.fromCharCode of both halves, each cut to sixteen bits. */
  function Halves(cp: bv32): (r: (Unit, Unit)) {
    var v := cp - 0x10000;
    (((0xD800 + (v >> 10)) & 0xFFFF) as Unit, ((0xDC00 + (v & 0x3FF)) & 0xFFFF) as Unit)
  }

  lemma TwoBack(c: Unit)
    requires 0x80 <= c < 0x800
    ensures var (a, b) := Two(c); a >= 0x80 && a & 0xE0 == 0xC0 && UnTwo(a, b) == c
  {
  }

  lemma ThreeBack(c: Unit)
    requires 0x800 <= c
    ensures var (a, b, d) := Three(c);
      a >= 0x80 && a & 0xE0 != 0xC0 && a & 0xF0 == 0xE0 && UnThree(a, b, d) == c
  {
  }

  lemma FourLead(cp: bv32)
    requires 0x10000 <= cp <= 0x10FFFF
    ensures var a := Four(cp).0; a >= 0x80 && a & 0xE0 != 0xC0 && a & 0xF0 != 0xE0
  {
  }

  lemma FourBack(cp: bv32)
    requires 0x10000 <= cp <= 0x10FFFF
    ensures var (a, b, c, d) := Four(cp); UnFour(a, b, c, d) == cp
  {
  }

  lemma ScalarBack(c: Unit, d: Unit)
    requires IsHigh(c) && IsLow(d)
    ensures 0x10000 <= Scalar(c, d) <= 0x10FFFF && Halves(Scalar(c, d)) == (c, d)
  {
  }

  // ----- whole strings -----

  predicate StartsPair(s: seq<Unit>) {
    |s| >= 2 && IsHigh(s[0]) && IsLow(s[1])
  }

  function EncodeOne(c: Unit): (r: seq<Byte>) {
    if c < 0x80 then [(c & 0xFF) as Byte]
    else if c < 0x800 then var t := Two(c); [t.0, t.1]
    else var t := Three(c); [t.0, t.1, t.2]
  }

  function EncodePair(c: Unit, d: Unit): (r: seq<Byte>) {
    var t := Four(Scalar(c, d));
    [t.0, t.1, t.2, t.3]
  }

  /** What the encoding loop writes. */
  function Encode(s: seq<Unit>): (r: seq<Byte>)
    decreases |s|
  {
    if s == [] then []
    else if StartsPair(s) then EncodePair(s[0], s[1]) + Encode(s[2..])
    else EncodeOne(s[0]) + Encode(s[1..])
  }

  /** src[i], which past the end is undefined and counts as zero under `&`. */
  function At(b: seq<Byte>, i: nat): (r: Byte) {
    if i < |b| then b[i] else 0
  }

  function Drop(b: seq<Byte>, n: nat): (r: seq<Byte>) {
    if n <= |b| then b[n..] else []
  }

  /** The units one turn of the decoding loop appends, and how many bytes it takes. */
  function DecodeOne(b: seq<Byte>): (r: (seq<Unit>, nat))
    requires b != []
    ensures r.1 > 0
  {
    if b[0] < 0x80 then ([b[0] as Unit], 1)
    else if b[0] & 0xE0 == 0xC0 then ([UnTwo(b[0], At(b, 1))], 2)
    else if b[0] & 0xF0 == 0xE0 then ([UnThree(b[0], At(b, 1), At(b, 2))], 3)
    else var h := Halves(UnFour(b[0], At(b, 1), At(b, 2), At(b, 3))); ([h.0, h.1], 4)
  }

  function Decode(b: seq<Byte>): (r: seq<Unit>)
    decreases |b|
  {
    if b == [] then [] else DecodeOne(b).0 + Decode(Drop(b, DecodeOne(b).1))
  }

  lemma DecodeEncodedOne(c: Unit, rest: seq<Byte>)
    ensures EncodeOne(c) != []
    ensures DecodeOne(EncodeOne(c) + rest) == ([c], |EncodeOne(c)|)
  {
    if c >= 0x800 {
      ThreeBack(c);
    } else if c >= 0x80 {
      TwoBack(c);
    } else {
      assert (c & 0xFF) as Byte as Unit == c && (c & 0xFF) as Byte < 0x80;
    }
  }

  lemma DecodeEncodedPair(c: Unit, d: Unit, rest: seq<Byte>)
    requires IsHigh(c) && IsLow(d)
    ensures DecodeOne(EncodePair(c, d) + rest) == ([c, d], 4)
  {
    hide Four, Scalar, UnFour, Halves, IsHigh, IsLow;
    var cp := Scalar(c, d);
    ScalarBack(c, d);
    FourLead(cp);
    FourBack(cp);
    var t, b := Four(cp), EncodePair(c, d) + rest;
    assert b[0] == t.0 && At(b, 1) == t.1 && At(b, 2) == t.2 && At(b, 3) == t.3;
  }

  lemma DecodeStep(b: seq<Byte>, one: seq<Byte>, rest: seq<Byte>, units: seq<Unit>)
    requires one != [] && b == one + rest && DecodeOne(b) == (units, |one|)
    ensures Decode(b) == units + Decode(rest)
  {
    assert Drop(b, |one|) == rest;
  }

  /** Every string of code units, lone surrogates included, survives encoding and decoding. */
  lemma {:induction false} DecodeEncode(s: seq<Unit>)
    ensures Decode(Encode(s)) == s
    decreases |s|
  {
    hide EncodeOne, EncodePair, DecodeOne, Decode, IsHigh, IsLow;
    if s == [] {
      DecodeNothing();
    } else if StartsPair(s) {
      var one, rest := EncodePair(s[0], s[1]), Encode(s[2..]);
      DecodeEncode(s[2..]);
      DecodeEncodedPair(s[0], s[1], rest);
      PairLength(s[0], s[1]);
      DecodeStep(one + rest, one, rest, [s[0], s[1]]);
      assert s == [s[0], s[1]] + s[2..];
    } else {
      var one, rest := EncodeOne(s[0]), Encode(s[1..]);
      DecodeEncode(s[1..]);
      DecodeEncodedOne(s[0], rest);
      DecodeStep(one + rest, one, rest, [s[0]]);
      assert s == [s[0]] + s[1..];
    }
  }

  lemma DecodeNothing()
    ensures Decode([]) == []
  {
  }

  lemma PairLength(c: Unit, d: Unit)
    ensures |EncodePair(c, d)| == 4
  {
  }

  lemma OneLength(c: Unit)
    ensures 1 <= |EncodeOne(c)| <= 3
  {
  }

  /** Never more than three bytes a unit. */
  lemma {:induction false} EncodeLength(s: seq<Unit>)
    ensures |s| <= |Encode(s)| <= 3 * |s|
    decreases |s|
  {
    hide EncodeOne, EncodePair, StartsPair;
    if s != [] {
      OneLength(s[0]);
      if StartsPair(s) {
        PairHasTwo(s);
        PairLength(s[0], s[1]);
        EncodeLength(s[2..]);
      } else {
        EncodeLength(s[1..]);
      }
    }
  }

  lemma PairHasTwo(s: seq<Unit>)
    requires StartsPair(s)
    ensures |s| >= 2
  {
  }

  // ----- UTF-8 proper (section 3 of RFC 3629) -----

  /** The characters of a well-formed UTF-16 string. */
  function Scalars(s: seq<Unit>): (res: Option<seq<bv32>>)
    decreases |s|
  {
    if s == [] then Some([])
    else if StartsPair(s) then
      var r := Scalars(s[2..]); if r.None? then None else Some([Scalar(s[0], s[1])] + r.value)
    else if IsHigh(s[0]) || IsLow(s[0]) then None
    else var r := Scalars(s[1..]); if r.None? then None else Some([s[0] as bv32] + r.value)
  }

  /** The octet sequence of one character, by its range. */
  function Octets(cp: bv32): (r: seq<Byte>) {
    if cp <= 0x7F then [(cp & 0x7F) as Byte]
    else if cp <= 0x7FF then [0xC0 | ((cp >> 6) & 0x1F) as Byte, 0x80 | (cp & 0x3F) as Byte]
    else if cp <= 0xFFFF then
      [0xE0 | ((cp >> 12) & 0x0F) as Byte, 0x80 | ((cp >> 6) & 0x3F) as Byte, 0x80 | (cp & 0x3F) as Byte]
    else
      [0xF0 | ((cp >> 18) & 0x07) as Byte, 0x80 | ((cp >> 12) & 0x3F) as Byte,
       0x80 | ((cp >> 6) & 0x3F) as Byte, 0x80 | (cp & 0x3F) as Byte]
  }

  /** The examples of section 7 of RFC 3629 and of the Unicode Standard, one for each length. */
  lemma KnownOctets()
    ensures Octets(0x41) == [0x41] && Octets(0x0391) == [0xCE, 0x91] && Octets(0xD55C) == [0xED, 0x95, 0x9C]
    ensures Octets(0x233B4) == [0xF0, 0xA3, 0x8E, 0xB4]
    ensures Scalar(0xD84C, 0xDFB4) == 0x233B4
    ensures EncodeOne(0xD800) == [0xED, 0xA0, 0x80] && EncodeOne(0xDFFF) == [0xED, 0xBF, 0xBF]
  {
  }

  function Utf8(cps: seq<bv32>): (r: seq<Byte>) {
    if cps == [] then [] else Octets(cps[0]) + Utf8(cps[1..])
  }

  lemma OneIsOctets(c: Unit)
    ensures EncodeOne(c) == Octets(c as bv32)
  {
    var w := c as bv32;
    assert c < 0x80 <==> w <= 0x7F;
    assert c < 0x800 <==> w <= 0x7FF;
    assert w <= 0xFFFF;
    if c < 0x80 {
      assert (c & 0xFF) as Byte == (w & 0x7F) as Byte;
    } else if c < 0x800 {
      assert ((c >> 6) & 0xFF) as Byte == ((w >> 6) & 0x1F) as Byte && (c & 0x3F) as Byte == (w & 0x3F) as Byte;
    } else {
      assert ((c >> 12) & 0xFF) as Byte == ((w >> 12) & 0x0F) as Byte;
      assert ((c >> 6) & 0x3F) as Byte == ((w >> 6) & 0x3F) as Byte && (c & 0x3F) as Byte == (w & 0x3F) as Byte;
    }
  }

  lemma PairIsOctets(c: Unit, d: Unit)
    requires IsHigh(c) && IsLow(d)
    ensures EncodePair(c, d) == Octets(Scalar(c, d))
  {
    ScalarBack(c, d);
    LeadOctet(Scalar(c, d));
  }

  lemma LeadOctet(cp: bv32)
    requires 0x10000 <= cp <= 0x10FFFF
    ensures ((cp >> 18) & 0xFF) as Byte == ((cp >> 18) & 0x07) as Byte
  {
  }

  /** A string without lone surrogates is written as exactly its UTF-8. */
  lemma {:induction false} EncodeIsUtf8(s: seq<Unit>)
    requires Scalars(s).Some?
    ensures Encode(s) == Utf8(Scalars(s).value)
    decreases |s|
  {
    hide EncodeOne, EncodePair, Octets, Scalar, IsHigh, IsLow;
    if s != [] {
      if StartsPair(s) {
        PairIsOctets(s[0], s[1]);
        EncodeIsUtf8(s[2..]);
        assert ([Scalar(s[0], s[1])] + Scalars(s[2..]).value)[1..] == Scalars(s[2..]).value;
      } else {
        OneIsOctets(s[0]);
        EncodeIsUtf8(s[1..]);
        assert ([s[0] as bv32] + Scalars(s[1..]).value)[1..] == Scalars(s[1..]).value;
      }
    }
  }

  /** The test of the regular expression: a high without a low after it, or a low without a high before it. */
  predicate LoneAt(s: seq<Unit>, i: nat)
    requires i < |s|
  {
    || (IsHigh(s[i]) && !(i + 1 < |s| && IsLow(s[i + 1])))
    || (IsLow(s[i]) && (i == 0 || !IsHigh(s[i - 1])))
  }

  predicate HasLone(s: seq<Unit>) {
    exists i: nat :: i < |s| && LoneAt(s, i)
  }

  lemma HighIsNotLow(c: Unit)
    ensures !(IsHigh(c) && IsLow(c))
  {
  }

  /** The regular expression finds something exactly in the strings that are not well-formed UTF-16. */
  lemma {:induction false} LoneIffIllFormed(s: seq<Unit>)
    ensures HasLone(s) <==> Scalars(s).None?
    decreases |s|
  {
    hide IsHigh, IsLow, Scalar;
    if s != [] {
      HighIsNotLow(s[0]);
      if StartsPair(s) {
        HighIsNotLow(s[1]);
        LoneIffIllFormed(s[2..]);
        ShiftLone(s, 2);
        assert !LoneAt(s, 0) && !LoneAt(s, 1);
      } else if IsHigh(s[0]) || IsLow(s[0]) {
        assert LoneAt(s, 0);
      } else {
        LoneIffIllFormed(s[1..]);
        ShiftLone(s, 1);
        assert !LoneAt(s, 0);
      }
    }
  }

  /** Cutting after a unit that is not high moves the lone surrogates and nothing else. */
  lemma ShiftLone(s: seq<Unit>, k: nat)
    requires 0 < k <= |s| && !IsHigh(s[k - 1])
    ensures forall i: nat :: i < |s| - k ==> LoneAt(s[k..], i) == LoneAt(s, i + k)
    ensures HasLone(s[k..]) <==> exists i: nat :: k <= i < |s| && LoneAt(s, i)
  {
    hide IsHigh, IsLow;
    forall i: nat | i < |s| - k
      ensures LoneAt(s[k..], i) == LoneAt(s, i + k)
    {
      assert s[k..][i] == s[i + k];
    }
    if HasLone(s[k..]) {
      var i: nat :| i < |s[k..]| && LoneAt(s[k..], i);
      assert LoneAt(s, i + k);
    }
    if i: nat :| k <= i < |s| && LoneAt(s, i) {
      assert LoneAt(s[k..], i - k);
    }
  }

  // ----- reading back what was written -----

  type Decoder = seq<Byte> -> seq<Unit>

  /**
   * What the Encoding Standard says of TextDecoder on well-formed UTF-8: the string it encodes,
   * without a leading byte order mark. Of other bytes nothing is assumed.
   */
  ghost predicate Standard(decoder: Decoder) {
    forall s :: Scalars(s).Some? ==>
      decoder(Encode(s)) == if s != [] && s[0] == 0xFEFF then s[1..] else s
  }

  /** readUtf8 of the bytes writeUtf8 wrote, under the flag it left. */
  function ReadBack(decoder: Decoder, s: seq<Unit>): (back: seq<Unit>) {
    if HasLone(s) then Decode(Encode(s)) else decoder(Encode(s))
  }

  /**
   * The whole crossing is the identity except on strings without lone surrogates that begin
   * with U+FEFF, which lose it.
   */
  lemma ReadBackIffNoLeadingFeff(decoder: Decoder, s: seq<Unit>)
    requires Standard(decoder)
    ensures ReadBack(decoder, s) == s <==> HasLone(s) || s == [] || s[0] != 0xFEFF
  {
    hide HasLone, Encode, Decode, Scalars;
    DecodeEncode(s);
    LoneIffIllFormed(s);
  }

  // ----- the buffers -----

  const INITIAL_CAP := 131072
  const MAX_UNITS := 715827882  // longest string whose 3n + 1 is a positive int32

  /** Conversion of a number to a WebAssembly i32. */
  function ToInt32(n: int): (r: int) {
    var m := n % 0x1_0000_0000;
    if m < 0x8000_0000 then m else m - 0x1_0000_0000
  }

  lemma NeedFitsIffShort(n: nat)
    requires n < 0x4000_0000
    ensures ToInt32(3 * n + 1) == 3 * n + 1 <==> n <= MAX_UNITS
    ensures n > MAX_UNITS ==> ToInt32(3 * n + 1) <= 0
  {
  }

  class Bridge {
    var textIn: array<Byte>
    var cap: nat  // g_text_cap, a 32-bit size_t
    var lastWtf8: bool

    ghost predicate Valid()
      reads this
    {
      textIn.Length == cap && 0 < cap < 0x1_0000_0000
    }

    constructor ()
      ensures Valid() && cap == INITIAL_CAP && fresh(textIn)
    {
      textIn := new Byte[INITIAL_CAP];
      cap := INITIAL_CAP;
      lastWtf8 := false;
    }

    /** fb_cc_text_reserve; `memory` is whether both mallocs succeed. The doubling never wraps. */
    method Reserve(need: int, memory: bool) returns (r: int)
      requires Valid() && -0x8000_0000 <= need < 0x8000_0000
      modifies this
      ensures Valid() && lastWtf8 == old(lastWtf8) && r == ToInt32(cap)
      ensures need <= old(cap) || !memory ==> cap == old(cap) && textIn == old(textIn)
      ensures memory ==> need <= cap
      ensures memory && need > old(cap) ==> cap < 2 * need && fresh(textIn)
    {
      if need <= 0 || need <= cap {
        return ToInt32(cap);
      }
      var grown := cap;
      while grown < need
        invariant 0 < grown < 0x1_0000_0000 && (grown == cap || grown < 2 * need)
        decreases need - grown
      {
        grown := grown * 2 % 0x1_0000_0000;
      }
      if !memory {
        return ToInt32(cap);
      }
      textIn := new Byte[grown];
      cap := grown;
      return ToInt32(grown);
    }

    /** dst[p] := v on a Uint8Array: out of bounds is ignored. */
    method Put(p: nat, v: Byte)
      requires Valid()
      modifies textIn
      ensures forall k :: 0 <= k < textIn.Length ==> textIn[k] == if k == p then v else old(textIn[k])
    {
      if p < textIn.Length {
        textIn[p] := v;
      }
    }

    /** The WTF-8 loop and its terminator. */
    method EncodeLoop(s: seq<Unit>) returns (p: nat)
      requires Valid()
      modifies textIn
      ensures p == |Encode(s)|
      ensures forall k :: 0 <= k < p && k < textIn.Length ==> textIn[k] == Encode(s)[k]
      ensures p < textIn.Length ==> textIn[p] == 0
    {
      hide Encode, IsHigh, IsLow, Two, Three, Scalar, Four;
      p := 0;
      var i := 0;
      while i < |s|
        invariant i <= |s| && p <= |Encode(s)| && Encode(s)[p..] == Encode(s[i..])
        invariant forall k :: 0 <= k < p && k < textIn.Length ==> textIn[k] == Encode(s)[k]
      {
        ghost var left := Encode(s[i..]);
        EncodeHead(s, i);
        var c := s[i];
        if c < 0x80 {
          Put(p, (c & 0xFF) as Byte);
          assert left[0] == Encode(s)[p];
          p := p + 1;
        } else if c < 0x800 {
          var t := Two(c);
          Put(p, t.0);
          Put(p + 1, t.1);
          assert left[0] == Encode(s)[p] && left[1] == Encode(s)[p + 1];
          p := p + 2;
        } else if StartsPair(s[i..]) {
          var t := Four(Scalar(c, s[i + 1]));
          i := i + 1;
          Put(p, t.0);
          Put(p + 1, t.1);
          Put(p + 2, t.2);
          Put(p + 3, t.3);
          assert left[0] == Encode(s)[p] && left[1] == Encode(s)[p + 1];
          assert left[2] == Encode(s)[p + 2] && left[3] == Encode(s)[p + 3];
          p := p + 4;
        } else {
          var t := Three(c);
          Put(p, t.0);
          Put(p + 1, t.1);
          Put(p + 2, t.2);
          assert left[0] == Encode(s)[p] && left[1] == Encode(s)[p + 1] && left[2] == Encode(s)[p + 2];
          p := p + 3;
        }
        i := i + 1;
      }
      EncodeNothing(s);
      Put(p, 0);
    }

    /** TextEncoder's bytes and a terminator. */
    method CopyBytes(b: seq<Byte>)
      requires Valid()
      modifies textIn
      ensures forall k :: 0 <= k < |b| && k < textIn.Length ==> textIn[k] == b[k]
      ensures |b| < textIn.Length ==> textIn[|b|] == 0
    {
      for i := 0 to |b|
        invariant forall k :: 0 <= k < i && k < textIn.Length ==> textIn[k] == b[k]
      {
        Put(i, b[i]);
      }
      Put(|b|, 0);
    }

    /**
     * writeUtf8: whichever branch is taken, the buffer receives the encoding of the string, all
     * of it and the terminator when memory lasts and the length is a positive int32.
     */
    method WriteUtf8(s: seq<Unit>, memory: bool) returns (p: nat)
      requires Valid() && |s| < 0x4000_0000
      modifies this, textIn
      ensures Valid() && p == |Encode(s)| && lastWtf8 == HasLone(s)
      ensures memory && |s| <= MAX_UNITS ==> p < textIn.Length && textIn[..p] == Encode(s) && textIn[p] == 0
    {
      hide HasLone, Encode, Scalars, Utf8;
      EncodeLength(s);
      NeedFitsIffShort(|s|);
      lastWtf8 := HasLone(s);
      if !lastWtf8 {
        LoneIffIllFormed(s);
        EncodeIsUtf8(s);
        var encoded := Utf8(Scalars(s).value);
        var _ := Reserve(ToInt32(|encoded| + 1), memory);
        CopyBytes(encoded);
        p := |encoded|;
      } else {
        var _ := Reserve(ToInt32(3 * |s| + 1), memory);
        p := EncodeLoop(s);
      }
    }

    /** readUtf8 of the first bytes of the output buffer. */
    method ReadUtf8(src: seq<Byte>, decoder: Decoder) returns (out: seq<Unit>)
      ensures out == if lastWtf8 then Decode(src) else decoder(src)
    {
      if !lastWtf8 {
        return decoder(src);
      }
      hide DecodeOne, Decode, Drop;
      NothingToDrop(src);
      out := [];
      var i := 0;
      while i < |src|
        invariant Decode(src) == out + Decode(Drop(src, i))
      {
        var (units, n) := DecodeOne(src[i..]);
        DecodeFrom(src, i, out);
        out := out + units;
        i := i + n;
      }
      NothingLeft(src, i);
      DecodeNothing();
      assert out + [] == out;
    }
  }

  lemma NothingToDrop(src: seq<Byte>)
    ensures Drop(src, 0) == src
  {
  }

  lemma NothingLeft(src: seq<Byte>, i: nat)
    requires i >= |src|
    ensures Drop(src, i) == []
  {
  }

  /** One turn of the decoding loop. */
  lemma DecodeFrom(src: seq<Byte>, i: nat, out: seq<Unit>)
    requires i < |src|
    ensures var (units, n) := DecodeOne(src[i..]);
      out + Decode(Drop(src, i)) == out + units + Decode(Drop(src, i + n))
  {
    hide DecodeOne;
    var (units, n) := DecodeOne(src[i..]);
    assert Drop(src, i) == src[i..] && Drop(src[i..], n) == Drop(src, i + n);
    assert out + (units + Decode(Drop(src, i + n))) == out + units + Decode(Drop(src, i + n));
  }

  /** The first bytes of what is left to write, branch by branch. */
  lemma EncodeHead(s: seq<Unit>, i: nat)
    requires i < |s|
    ensures var c, left := s[i], Encode(s[i..]);
      if c < 0x80 then |left| >= 1 && left[0] == (c & 0xFF) as Byte && left[1..] == Encode(s[i + 1..])
      else if c < 0x800 then |left| >= 2 && left[0] == Two(c).0 && left[1] == Two(c).1 && left[2..] == Encode(s[i + 1..])
      else if StartsPair(s[i..]) then
        i + 1 < |s| && |left| >= 4 && var t := Four(Scalar(c, s[i + 1]));
        left[0] == t.0 && left[1] == t.1 && left[2] == t.2 && left[3] == t.3 && left[4..] == Encode(s[i + 2..])
      else
        |left| >= 3 && var t := Three(c);
        left[0] == t.0 && left[1] == t.1 && left[2] == t.2 && left[3..] == Encode(s[i + 1..])
  {
    hide Two, Three, Four, Scalar;
    var t := s[i..];
    assert t[0] == s[i] && t[1..] == s[i + 1..];
    if StartsPair(t) {
      assert t[1] == s[i + 1] && t[2..] == s[i + 2..];
    }
  }

  lemma EncodeNothing(s: seq<Unit>)
    ensures Encode(s[|s|..]) == []
  {
  }
}
