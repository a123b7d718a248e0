/**
 * One-time codes as src/auth/totp.c computes and checks them (RFC 6238 over RFC 4226). The keyed
 * hash is a parameter; it may fail or return fewer bytes than are needed.
 */
module Totp {
  import opened Base32
  import opened Common
  import opened Arithmetic

  type Mac = (seq<nat>, seq<nat>) -> Option<seq<byte>>

  const WORD64 := 0x1_0000_0000_0000_0000
  const STEP := 30
  const DIGITS := 6
  const SECRET_BYTES := 20
  const SECRET_LETTERS := 32

  // ----- numerals -----

  /** The bases in use: bytes and decimal digits. */
  type Base = b: nat | b == 10 || b == 256 witness 10

  function Power(b: Base, k: nat): (r: nat) {
    if k == 0 then 1 else b * Power(b, k - 1)
  }

  /** The low len digits of v to base b, most significant first. */
  function Numeral(v: nat, b: Base, len: nat): (d: seq<nat>)
    ensures |d| == len && forall i :: 0 <= i < len ==> d[i] < b
  {
    if len == 0 then [] else Numeral(v / b, b, len - 1) + [v % b]
  }

  function ValueOf(d: seq<nat>, b: Base): (r: nat) {
    if d == [] then 0 else b * ValueOf(d[..|d| - 1], b) + d[|d| - 1]
  }

  lemma {:induction false} ValueOfNumeral(v: nat, b: Base, len: nat)
    requires v < Power(b, len)
    ensures ValueOf(Numeral(v, b, len), b) == v
  {
    if len > 0 {
      var d := Numeral(v, b, len);
      QuotientBelow(v, b, Power(b, len - 1));
      ValueOfNumeral(v / b, b, len - 1);
      assert d[..len - 1] == Numeral(v / b, b, len - 1) && d[len - 1] == v % b;
      LastDigit(v, b);
    }
  }

  lemma QuotientBelow(v: nat, b: Base, p: nat)
    requires v < b * p
    ensures v / b < p
  {
    var q := v / b;
    Division(v, b);
    MulLess(p, q, b);
    assert b * p == p * b;
  }

  lemma LastDigit(v: nat, b: Base)
    ensures b * (v / b) + v % b == v
  {
    Division(v, b);
  }

  // ----- codes -----

  /** C's division rounds toward zero, and the counter is unsigned. */
  function Counter(t: int): (r: nat) {
    (if t >= 0 then t / STEP else -(-t / STEP)) % WORD64
  }

  /** The last digest byte's low half chooses where the 31 bits are taken from. */
  function Truncate(digest: seq<byte>): (r: nat)
    requires |digest| >= 20
  {
    var o: nat := digest[19] % 16;
    var d0: nat, d1: nat, d2: nat, d3: nat := digest[o] % 128, digest[o + 1], digest[o + 2], digest[o + 3];
    d0 * 0x1000000 + d1 * 0x10000 + d2 * 0x100 + d3
  }

  function Ascii(d: seq<nat>): (text: seq<byte>)
    requires forall i :: 0 <= i < |d| ==> d[i] < 10
    ensures |text| == |d| && forall i :: 0 <= i < |d| ==> text[i] == 48 + d[i]
  {
    seq(|d|, i requires 0 <= i < |d| => 48 + d[i])
  }

  /** A key must decode, fit 64 bytes and not be implausibly short. */
  function Key(secret: seq<byte>): (r: Option<seq<nat>>) {
    var d := Decoded(secret);
    if d.Some? && 10 <= |d.value| <= 64 then d else None
  }

  function StepCode(key: seq<nat>, counter: nat, mac: Mac): (r: Option<seq<byte>>) {
    var digest := mac(key, Numeral(counter, 256, 8));
    if digest.None? || |digest.value| < 20 then None
    else Some(Ascii(Numeral(Truncate(digest.value) % 1_000_000, 10, DIGITS)))
  }

  function Code(secret: seq<byte>, t: int, mac: Mac): (r: Option<seq<byte>>) {
    var key := Key(secret);
    if key.None? then None else StepCode(key.value, Counter(t), mac)
  }

  predicate WellFormed(code: seq<byte>) {
    |code| == DIGITS && forall i :: 0 <= i < |code| ==> 48 <= code[i] <= 57
  }

  predicate Accepts(secret: seq<byte>, code: seq<byte>, t: int, mac: Mac) {
    WellFormed(code) && exists drift: int :: -1 <= drift <= 1 && Code(secret, t + drift * STEP, mac) == Some(code)
  }

  method CodeAt(secret: seq<byte>, t: int, mac: Mac) returns (code: Option<seq<byte>>)
    requires 0 !in secret
    ensures code == Code(secret, t, mac)
  {
    hide Decoded, Power;
    var buffer := new byte[64];
    var n := Decode(secret, buffer, 64);
    if n < 10 {
      return None;
    }
    var key: seq<nat> := buffer[..n];
    var counter: nat := Counter(t);
    var msg: seq<nat> := [0, 0, 0, 0, 0, 0, 0, 0];
    var i := 8;
    while i > 0
      invariant 0 <= i <= 8 && |msg| == 8
      invariant Numeral(Counter(t), 256, 8) == Numeral(counter, 256, i) + msg[i..]
    {
      i := i - 1;
      msg := msg[i := counter % 256];
      assert Numeral(counter, 256, i + 1) == Numeral(counter / 256, 256, i) + [counter % 256];
      counter := counter / 256;
    }
    assert Numeral(Counter(t), 256, 8) == msg;
    var digest := mac(key, msg);
    if digest.None? || |digest.value| < 20 {
      return None;
    }
    return Some(Ascii(Numeral(Truncate(digest.value) % 1_000_000, 10, DIGITS)));
  }

  method IsWellFormed(code: seq<byte>) returns (ok: bool)
    ensures ok <==> WellFormed(code)
  {
    if |code| != DIGITS {
      return false;
    }
    for i := 0 to |code|
      invariant forall j :: 0 <= j < i ==> 48 <= code[j] <= 57
    {
      if code[i] < 48 || code[i] > 57 {
        return false;
      }
    }
    return true;
  }

  method VerifyAt(secret: seq<byte>, code: seq<byte>, t: int, mac: Mac) returns (ok: bool)
    requires 0 !in secret
    ensures ok <==> Accepts(secret, code, t, mac)
  {
    hide Code;
    var good := IsWellFormed(code);
    if !good {
      return false;
    }
    for drift := -1 to 2
      invariant forall d: int :: -1 <= d < drift ==> Code(secret, t + d * STEP, mac) != Some(code)
    {
      var wanted := CodeAt(secret, t + drift * STEP, mac);
      if wanted == Some(code) {
        return true;
      }
    }
    return false;
  }

  /** Fills the buffer with a fresh secret's letters; the random bytes come from the caller. */
  method SecretGenerate(random: seq<byte>, out: array<byte>) returns (ok: bool)
    requires |random| == SECRET_BYTES && out.Length >= SECRET_LETTERS + 1
    modifies out
    ensures ok && out[..SECRET_LETTERS] == Encoded(random) && out[SECRET_LETTERS] == 0
  {
    hide Encoded;
    EncodedLength(random);
    var n := Encode(random, out, SECRET_LETTERS + 1);
    return n == SECRET_LETTERS;
  }

  // ----- what is promised -----

  /** Every generated secret is usable, and its key is the random bytes themselves. */
  lemma GeneratedSecretIsUsable(random: seq<byte>)
    requires |random| == SECRET_BYTES
    ensures |Encoded(random)| == SECRET_LETTERS && Key(Encoded(random)) == Some(random)
  {
    RoundTrip(random);
    EncodedLength(random);
  }

  /** How a secret is spelled, spaced or padded changes none of its codes. */
  lemma SpellingIsIgnored(a: seq<byte>, c: byte, b: seq<byte>, t: int, mac: Mac)
    ensures IsSkipped(c) ==> Code(a + [c] + b, t, mac) == Code(a + b, t, mac)
    ensures Code(a + [SwapCase(c)] + b, t, mac) == Code(a + [c] + b, t, mac)
  {
    hide Decoded, StepCode;
    DecodingIgnores(a, c, b);
  }

  lemma IssuedCodesAreWellFormed(secret: seq<byte>, t: int, mac: Mac)
    ensures Code(secret, t, mac).Some? ==> WellFormed(Code(secret, t, mac).value)
  {
  }

  function DigitsOf(code: seq<byte>): (r: seq<nat>)
    requires WellFormed(code)
  {
    seq(|code|, i requires 0 <= i < |code| => code[i] - 48)
  }

  /** Six digits, leading zeros kept, that read as the truncated digest modulo a million. */
  lemma CodeReadsAsTruncation(key: seq<nat>, counter: nat, mac: Mac)
    requires StepCode(key, counter, mac).Some?
    ensures var code := StepCode(key, counter, mac).value;
      && WellFormed(code)
      && ValueOf(DigitsOf(code), 10) == Truncate(mac(key, Numeral(counter, 256, 8)).value) % 1_000_000
  {
    hide Power, ValueOf, Truncate;
    var v := Truncate(mac(key, Numeral(counter, 256, 8)).value) % 1_000_000;
    var d := Numeral(v, 10, DIGITS);
    assert DigitsOf(Ascii(d)) == d;
    assert v < Power(10, DIGITS) by { Million(); }
    ValueOfNumeral(v, 10, DIGITS);
  }

  lemma Million()
    ensures Power(10, DIGITS) == 1_000_000
  {
    assert Power(10, 3) == 1000;
  }

  /** The eight bytes of a step, most significant first. */
  lemma MessageBytes(c: nat)
    requires c < 0x1_0000_0000_0000_0000
    ensures Numeral(c, 256, 8) ==
      [c / 0x100_0000_0000_0000, c / 0x1_0000_0000_0000 % 256, c / 0x100_0000_0000 % 256, c / 0x1_0000_0000 % 256,
       c / 0x100_0000 % 256, c / 0x1_0000 % 256, c / 0x100 % 256, c % 256]
  {
    FourDigits(c, 256, 4);
    FourDigits(c / 256 / 256 / 256 / 256, 256, 0);
    assert c / 256 / 256 == c / 0x1_0000 && c / 0x1_0000 / 256 == c / 0x100_0000 && c / 0x100_0000 / 256 == c / 0x1_0000_0000;
    var d := c / 0x1_0000_0000;
    assert d / 256 == c / 0x100_0000_0000 && d / 256 / 256 == c / 0x1_0000_0000_0000;
    assert d / 256 / 256 / 256 == c / 0x100_0000_0000_0000 < 256;
    assert Numeral(d, 256, 0) == [];
  }

  lemma FourDigits(v: nat, b: Base, len: nat)
    ensures Numeral(v, b, len + 4)
         == Numeral(v / b / b / b / b, b, len) + [v / b / b / b % b, v / b / b % b, v / b % b, v % b]
  {
    var v1 := v / b;
    var v2 := v1 / b;
    var v3 := v2 / b;
    assert Numeral(v, b, len + 4) == Numeral(v1, b, len + 3) + [v % b];
    assert Numeral(v1, b, len + 3) == Numeral(v2, b, len + 2) + [v1 % b];
    assert Numeral(v2, b, len + 2) == Numeral(v3, b, len + 1) + [v2 % b];
    assert Numeral(v3, b, len + 1) == Numeral(v3 / b, b, len) + [v3 % b];
  }

  /** Six decimal digits, the leading zeros among them. */
  lemma SixDigits(v: nat)
    requires v < 1_000_000
    ensures Numeral(v, 10, 6) == [v / 100000, v / 10000 % 10, v / 1000 % 10, v / 100 % 10, v / 10 % 10, v % 10]
  {
    FourDigits(v, 10, 2);
    assert v / 10 / 10 == v / 100 && v / 100 / 10 == v / 1000 && v / 1000 / 10 == v / 10000 && v / 10000 / 10 == v / 100000;
    assert Numeral(v / 10000, 10, 1) == Numeral(v / 100000, 10, 0) + [v / 10000 % 10];
    assert Numeral(v / 10000, 10, 2) == Numeral(v / 100000, 10, 1) + [v / 10000 % 10];
    assert Numeral(v / 100000, 10, 1) == Numeral(v / 1000000, 10, 0) + [v / 100000 % 10];
  }

  /** The number in RFC 4226, section 5.3: 31 bits of the digest from where its byte 19 points. */
  function Taken(digest: seq<byte>): (v: nat)
    requires |digest| >= 20
  {
    var o: nat := digest[19] % 16;
    var d0: nat, d1: nat, d2: nat, d3: nat := digest[o], digest[o + 1], digest[o + 2], digest[o + 3];
    (((d0 * 256 + d1) * 256 + d2) * 256 + d3) % 0x8000_0000
  }

  lemma TruncateIsTaken(digest: seq<byte>)
    requires |digest| >= 20
    ensures Truncate(digest) == Taken(digest)
  {
    var o: nat := digest[19] % 16;
    var d0: nat, d1: nat, d2: nat, d3: nat := digest[o], digest[o + 1], digest[o + 2], digest[o + 3];
    var low := d1 * 0x1_0000 + d2 * 0x100 + d3;
    assert d0 * 0x100_0000 == d0 / 128 * 0x8000_0000 + d0 % 128 * 0x100_0000;
    QuotientRemainder(0x8000_0000, d0 / 128, d0 % 128 * 0x100_0000 + low);
  }

  /**
   * A code in numbers: a key of 10 to 64 bytes, the count of 30-second steps in eight bytes, the
   * keyed hash, and six digits of the 31 bits taken from it.
   */
  lemma CodeInNumbers(secret: seq<byte>, t: nat, mac: Mac)
    requires t / 30 < 0x1_0000_0000_0000_0000
    ensures var key := Decoded(secret);
      Code(secret, t, mac) ==
        if key.None? || |key.value| < 10 || |key.value| > 64 then None
        else
          var c := t / 30;
          var digest := mac(key.value,
            [c / 0x100_0000_0000_0000, c / 0x1_0000_0000_0000 % 256, c / 0x100_0000_0000 % 256, c / 0x1_0000_0000 % 256,
             c / 0x100_0000 % 256, c / 0x1_0000 % 256, c / 0x100 % 256, c % 256]);
          if digest.None? || |digest.value| < 20 then None
          else
            var v := Taken(digest.value) % 1_000_000;
            Some([48 + v / 100000, 48 + v / 10000 % 10, 48 + v / 1000 % 10, 48 + v / 100 % 10, 48 + v / 10 % 10, 48 + v % 10])
  {
    hide Numeral, Truncate, Taken, Decoded;
    assert Counter(t) == t / 30;
    var key := Decoded(secret);
    if key.Some? {
      var c := t / 30;
      MessageBytes(c);
      var digest := mac(key.value, Numeral(c, 256, 8));
      if digest.Some? && |digest.value| >= 20 {
        TruncateIsTaken(digest.value);
        var v := Taken(digest.value) % 1_000_000;
        SixDigits(v);
        var d := Numeral(v, 10, 6);
        assert Ascii(d) == [48 + d[0], 48 + d[1], 48 + d[2], 48 + d[3], 48 + d[4], 48 + d[5]];
      }
    }
  }

  /** A code issued in a step is accepted in that step and in both of its neighbours. */
  lemma AcceptedNextDoor(secret: seq<byte>, t: int, later: int, mac: Mac)
    requires t >= 0 && later >= 0 && -1 <= t / STEP - later / STEP <= 1
    ensures Code(secret, t, mac).Some? ==> Accepts(secret, Code(secret, t, mac).value, later, mac)
  {
    hide Key, StepCode, Power;
    var drift := t / STEP - later / STEP;
    IssuedCodesAreWellFormed(secret, t, mac);
    assert later + drift * STEP >= 0 && (later + drift * STEP) / STEP == t / STEP;
    assert Code(secret, later + drift * STEP, mac) == Code(secret, t, mac);
  }

  /** The steps the check looks at: three in a row, but not in the first half minute. */
  function Window(t: nat): (r: seq<nat>) {
    var k := t / STEP;
    if k > 0 then [k - 1, k, k + 1]
    else if t > 0 then [0, 1]
    else [0xFFFF_FFFF_FFFF_FFFF, 0, 1]
  }

  /**
   * A code is accepted exactly when it is one of the window's. Before time 30 rounding toward zero
   * merges the step before the first with the first one.
   */
  lemma AcceptsIffInWindow(secret: seq<byte>, code: seq<byte>, t: nat, mac: Mac)
    requires t / STEP + 1 < WORD64
    ensures Accepts(secret, code, t, mac) <==>
      && WellFormed(code) && Key(secret).Some?
      && exists c :: c in Window(t) && StepCode(Key(secret).value, c, mac) == Some(code)
  {
    hide Accepts, WellFormed, Key, StepCode, Power;
    ThreeTries(secret, code, t, mac);
    CounterBefore(t);
    var k := t / STEP;
    assert Counter(t) == k && Counter(t + STEP) == k + 1;
    assert Window(t)[0] in Window(t) && k in Window(t) && k + 1 in Window(t);
    assert forall c :: c in Window(t) ==> c == Window(t)[0] || c == k || c == k + 1;
  }

  lemma ThreeTries(secret: seq<byte>, code: seq<byte>, t: int, mac: Mac)
    ensures Accepts(secret, code, t, mac) <==>
      && WellFormed(code)
      && (|| Code(secret, t - 30, mac) == Some(code) || Code(secret, t, mac) == Some(code)
          || Code(secret, t + 30, mac) == Some(code))
  {
    hide WellFormed, Code;
    assert t + -1 * STEP == t - STEP && t + 0 * STEP == t && t + 1 * STEP == t + STEP;
  }

  lemma EightBytes()
    ensures Power(256, 8) == WORD64
  {
    assert Power(256, 4) == 0x1_0000_0000;
  }

  lemma CounterBefore(t: nat)
    requires t / STEP + 1 < WORD64
    ensures Counter(t - STEP) == Window(t)[0]
  {
  }

  /** Different steps are hashed from different messages. */
  lemma StepsHaveDistinctMessages(c: nat, d: nat)
    requires c < WORD64 && d < WORD64 && c != d
    ensures Numeral(c, 256, 8) != Numeral(d, 256, 8)
  {
    hide Power;
    EightBytes();
    ValueOfNumeral(c, 256, 8);
    ValueOfNumeral(d, 256, 8);
  }
}
