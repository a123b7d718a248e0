/** Bytes as 8-bit vectors, their bits, and big-endian words. */
module Bytes {
  import opened Arithmetic

  // ----- bits -----

  function Mask(j: nat): (r: bv8)
    requires j < 8
  {
    if j == 0 then 0x80 else if j == 1 then 0x40 else if j == 2 then 0x20 else if j == 3 then 0x10
    else if j == 4 then 0x08 else if j == 5 then 0x04 else if j == 6 then 0x02 else 0x01
  }

  /** Bit j of a byte, counted from the most significant end. */
  predicate Bit(b: bv8, j: nat)
    requires j < 8
  {
    b & Mask(j) != 0
  }

  lemma DivMod8(k: nat, n: nat)
    requires k < 8 * n
    ensures k / 8 < n && k % 8 < 8 && k == 8 * (k / 8) + k % 8
  {
  }

  lemma BitXor(a: bv8, b: bv8, j: nat)
    requires j < 8
    ensures Bit(a ^ b, j) == (Bit(a, j) != Bit(b, j))
  {
    assert (a ^ b) & Mask(j) == (a & Mask(j)) ^ (b & Mask(j));
  }

  lemma BitsDetermineByte(a: bv8, b: bv8)
    requires forall j: nat :: j < 8 ==> Bit(a, j) == Bit(b, j)
    ensures a == b
  {
    var d := a ^ b;
    forall j: nat | j < 8
      ensures !Bit(d, j)
    {
      BitXor(a, b, j);
    }
    assert !Bit(d, 0) && !Bit(d, 1) && !Bit(d, 2) && !Bit(d, 3);
    assert !Bit(d, 4) && !Bit(d, 5) && !Bit(d, 6) && !Bit(d, 7);
    assert d == 0;
  }

  /** A byte moved one bit towards its least significant end, the gap filled from `carry`. */
  lemma BitShift(carry: bv8, b: bv8, j: nat)
    requires j < 8
    ensures Bit((b >> 1) | (carry << 7), j) == if j == 0 then Bit(carry, 7) else Bit(b, j - 1)
    ensures Bit(b >> 1, j) == if j == 0 then false else Bit(b, j - 1)
  {
  }

  /** The byte whose first n bits are those of p, the rest clear. */
  function SetBits(p: seq<bool>, n: nat): (r: bv8)
    requires n <= |p| && n <= 8
  {
    if n == 0 then 0 else SetBits(p, n - 1) | if p[n - 1] then Mask(n - 1) else 0
  }

  lemma {:induction false} SetBitsBit(p: seq<bool>, n: nat, j: nat)
    requires n <= |p| && n <= 8 && j < 8
    ensures Bit(SetBits(p, n), j) == (j < n && p[j])
  {
    if n != 0 {
      SetBitsBit(p, n - 1, j);
      var rest, last := SetBits(p, n - 1), if p[n - 1] then Mask(n - 1) else 0;
      assert (rest | last) & Mask(j) == (rest & Mask(j)) | (last & Mask(j));
    }
  }

  function BitsOf(s: seq<bv8>): (p: seq<bool>)
    ensures |p| == 8 * |s|
    ensures forall k :: 0 <= k < 8 * |s| ==> p[k] == Bit(s[k / 8], k % 8)
  {
    seq(8 * |s|, k requires 0 <= k < 8 * |s| => Bit(s[k / 8], k % 8))
  }

  lemma BitAt(s: seq<bv8>, i: nat, j: nat)
    requires i < |s| && j < 8
    ensures BitsOf(s)[8 * i + j] == Bit(s[i], j)
  {
    assert (8 * i + j) / 8 == i && (8 * i + j) % 8 == j;
  }

  /** A byte's bits, the highest first. */
  lemma BitsOfByte(b: bv8)
    ensures BitsOf([b]) == [b & 0x80 != 0, b & 0x40 != 0, b & 0x20 != 0, b & 0x10 != 0,
                            b & 0x08 != 0, b & 0x04 != 0, b & 0x02 != 0, b & 0x01 != 0]
  {
  }

  function Pack(p: seq<bool>): (s: seq<bv8>)
    requires |p| % 8 == 0
    ensures |s| == |p| / 8
  {
    seq(|p| / 8, i requires 0 <= i < |p| / 8 => SetBits(p[8 * i..8 * i + 8], 8))
  }

  lemma BitsOfPack(p: seq<bool>)
    requires |p| % 8 == 0
    ensures BitsOf(Pack(p)) == p
  {
    forall k | 0 <= k < |p|
      ensures BitsOf(Pack(p))[k] == p[k]
    {
      SetBitsBit(p[8 * (k / 8)..8 * (k / 8) + 8], 8, k % 8);
    }
  }

  lemma BitsOfInjective(a: seq<bv8>, b: seq<bv8>)
    requires BitsOf(a) == BitsOf(b)
    ensures a == b
  {
    forall i | 0 <= i < |a|
      ensures a[i] == b[i]
    {
      forall j: nat | j < 8
        ensures Bit(a[i], j) == Bit(b[i], j)
      {
        assert BitsOf(a)[8 * i + j] == BitsOf(b)[8 * i + j];
      }
      BitsDetermineByte(a[i], b[i]);
    }
  }

  lemma PackBitsOf(s: seq<bv8>)
    ensures Pack(BitsOf(s)) == s
  {
    BitsOfPack(BitsOf(s));
    BitsOfInjective(Pack(BitsOf(s)), s);
  }

  /** Bytewise exclusive or. */
  function XorBytes(a: seq<bv8>, b: seq<bv8>): (r: seq<bv8>)
    requires |a| == |b|
    ensures |r| == |a|
    ensures forall i :: 0 <= i < |a| ==> r[i] == a[i] ^ b[i]
  {
    seq(|a|, i requires 0 <= i < |a| => a[i] ^ b[i])
  }

  lemma XorUndone(s: bv8, x: bv8)
    ensures s ^ (s ^ x) == x && (x ^ s) ^ s == x
  {
  }

  lemma XorBytesCancels(s: seq<bv8>, x: seq<bv8>, y: seq<bv8>)
    requires |s| == |x| == |y| && XorBytes(s, x) == XorBytes(s, y)
    ensures x == y
  {
    hide XorBytes;
    XorBytesUndone(s, x);
    XorBytesUndone(s, y);
  }

  lemma XorBytesUndone(s: seq<bv8>, x: seq<bv8>)
    requires |s| == |x|
    ensures XorBytes(s, XorBytes(s, x)) == x
  {
    forall i | 0 <= i < |s|
      ensures XorBytes(s, XorBytes(s, x))[i] == x[i]
    {
      XorUndone(s[i], x[i]);
    }
  }

  lemma XorBytesTwice(s: seq<bv8>, x: seq<bv8>)
    requires |s| == |x|
    ensures XorBytes(XorBytes(s, x), x) == s
  {
    forall i | 0 <= i < |s|
      ensures XorBytes(XorBytes(s, x), x)[i] == s[i]
    {
      XorUndone(x[i], s[i]);
    }
  }

  // ----- bytes as numbers -----

  /** Counts up from the zero byte, which the verifier follows more easily than a cast. */
  function FromNat(n: nat): (b: bv8)
    requires n < 256
    ensures ToNat(b) == n
  {
    if n == 0 then 0 else FromNat(n - 1) + 1
  }

  function ToNat(b: bv8): (n: nat)
    ensures n < 256
  {
    b as nat
  }

  lemma {:induction false} FromNatToNat(b: bv8)
    ensures FromNat(ToNat(b)) == b
    decreases ToNat(b)
  {
    if b != 0 {
      assert ToNat(b - 1) + 1 == ToNat(b);
      FromNatToNat(b - 1);
    }
  }

  // ----- 32-bit big-endian words -----

  lemma SplitWord(n: nat)
    requires n < 0x1_0000_0000
    ensures n == n / 0x100_0000 * 0x100_0000 + n / 0x1_0000 % 256 * 0x1_0000 + n / 256 % 256 * 256 + n % 256
    ensures n / 0x100_0000 < 256
  {
    assert n / 256 / 256 == n / 0x1_0000;
    assert n / 0x1_0000 / 256 == n / 0x100_0000;
  }

  lemma JoinWord(a: nat, b: nat, c: nat, d: nat)
    requires a < 256 && b < 256 && c < 256 && d < 256
    ensures var n := a * 0x100_0000 + b * 0x1_0000 + c * 256 + d;
      n / 0x100_0000 == a && n / 0x1_0000 % 256 == b && n / 256 % 256 == c && n % 256 == d
  {
    var n := a * 0x100_0000 + b * 0x1_0000 + c * 256 + d;
    QuotientRemainder(0x100_0000, a, b * 0x1_0000 + c * 256 + d);
    QuotientRemainder(0x1_0000, a * 256 + b, c * 256 + d);
    QuotientRemainder(256, (a * 256 + b) * 256 + c, d);
    QuotientRemainder(256, a, b);
    QuotientRemainder(256, a * 256 + b, c);
  }

  function Be32Write(n: nat): (s: seq<bv8>)
    requires n < 0x1_0000_0000
    ensures |s| == 4
  {
    [FromNat(n / 0x100_0000), FromNat(n / 0x1_0000 % 256), FromNat(n / 256 % 256), FromNat(n % 256)]
  }

  function Be32Read(s: seq<bv8>): (n: nat)
    requires |s| == 4
    ensures n < 0x1_0000_0000
  {
    ToNat(s[0]) * 0x100_0000 + ToNat(s[1]) * 0x1_0000 + ToNat(s[2]) * 256 + ToNat(s[3])
  }

  lemma Be32ReadWrite(n: nat)
    requires n < 0x1_0000_0000
    ensures Be32Read(Be32Write(n)) == n
  {
    hide FromNat, ToNat;
    SplitWord(n);
  }

  lemma Be32WriteRead(s: seq<bv8>)
    requires |s| == 4
    ensures Be32Write(Be32Read(s)) == s
  {
    hide FromNat, ToNat;
    JoinWord(ToNat(s[0]), ToNat(s[1]), ToNat(s[2]), ToNat(s[3]));
    FromNatToNat(s[0]);
    FromNatToNat(s[1]);
    FromNatToNat(s[2]);
    FromNatToNat(s[3]);
  }
}
