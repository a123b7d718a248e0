/** GHASH over byte blocks: fb_ghash_mul and fb_ghash_update. */
module Ghash {
  import opened Bytes
  import F = Gf128

  /** The product of two byte blocks in GF(2^128). */
  function MulBytes(y: seq<bv8>, x: seq<bv8>): (r: seq<bv8>)
    requires |y| == |x| == 16
    ensures |r| == 16
  {
    Pack(F.Mul(BitsOf(y), BitsOf(x)))
  }

  lemma MulBytesBits(y: seq<bv8>, x: seq<bv8>)
    requires |y| == |x| == 16
    ensures BitsOf(MulBytes(y, x)) == F.Mul(BitsOf(y), BitsOf(x))
  {
    BitsOfPack(F.Mul(BitsOf(y), BitsOf(x)));
  }

  lemma XorBytesBits(a: seq<bv8>, b: seq<bv8>)
    requires |a| == |b|
    ensures BitsOf(XorBytes(a, b)) == F.Xor(BitsOf(a), BitsOf(b))
  {
    hide Bit, BitsOf;
    forall k | 0 <= k < 8 * |a|
      ensures BitsOf(XorBytes(a, b))[k] == F.Xor(BitsOf(a), BitsOf(b))[k]
    {
      DivMod8(k, |a|);
      BitXor(a[k / 8], b[k / 8], k % 8);
    }
  }

  // ----- one multiplication by t -----

  predicate ShiftedBytes(v: seq<bv8>, w: seq<bv8>)
    requires |v| == |w| == 16
  {
    && w[0] == (v[0] >> 1) ^ (if v[15] & 1 != 0 then 0xe1 else 0)
    && forall j :: 1 <= j < 16 ==> w[j] == (v[j] >> 1) | (v[j - 1] << 7)
  }

  lemma ShiftedByteBit(v: seq<bv8>, w: seq<bv8>, i: nat, j: nat)
    requires |v| == |w| == 16 && ShiftedBytes(v, w) && i < 16 && j < 8
    ensures Bit(w[i], j) == (
      (if j != 0 then Bit(v[i], j - 1) else i != 0 && Bit(v[i - 1], 7))
      != (i == 0 && Bit(v[15], 7) && F.LowTerm(j)))
  {
    if i == 0 {
      BitShift(0, v[0], j);
      BitXor(v[0] >> 1, 0xe1, j);
      BitXor(v[0] >> 1, 0, j);
    } else {
      BitShift(v[i - 1], v[i], j);
    }
  }

  lemma ShiftedBytesIsTimesT(v: seq<bv8>, w: seq<bv8>)
    requires |v| == |w| == 16 && ShiftedBytes(v, w)
    ensures BitsOf(w) == F.TimesT(BitsOf(v))
  {
    hide Bit, F.TimesT;
    forall k | 0 <= k < 128
      ensures BitsOf(w)[k] == F.TimesT(BitsOf(v))[k]
    {
      ShiftedByteBit(v, w, k / 8, k % 8);
      F.TimesTBit(BitsOf(v), k);
      if k % 8 != 0 {
        assert (k - 1) / 8 == k / 8 && (k - 1) % 8 == k % 8 - 1;
      } else if k != 0 {
        assert (k - 1) / 8 == k / 8 - 1 && (k - 1) % 8 == 7;
      }
    }
  }

  // ----- fb_ghash_mul -----

  method XorInto(z: array<bv8>, v: seq<bv8>)
    requires z.Length == |v|
    modifies z
    ensures z[..] == XorBytes(old(z[..]), v)
  {
    for j := 0 to z.Length
      invariant forall k :: 0 <= k < j ==> z[k] == old(z[k]) ^ v[k]
      invariant forall k :: j <= k < z.Length ==> z[k] == old(z[k])
    {
      z[j] := z[j] ^ v[j];
    }
  }

  method ShiftRight(v: array<bv8>)
    requires v.Length == 16
    modifies v
    ensures ShiftedBytes(old(v[..]), v[..])
  {
    var lsb := v[15] & 1;
    var j := 15;
    while j > 0
      invariant 0 <= j <= 15
      invariant forall k :: 0 <= k <= j ==> v[k] == old(v[k])
      invariant forall k :: j < k < 16 ==> v[k] == (old(v[k]) >> 1) | (old(v[k - 1]) << 7)
    {
      v[j] := (v[j] >> 1) | (v[j - 1] << 7);
      j := j - 1;
    }
    v[0] := v[0] >> 1;
    if lsb != 0 {
      v[0] := v[0] ^ 0xe1;
    }
  }

  lemma AccumStart(zero: seq<bv8>, y: F.Block, x: F.Block)
    requires |zero| == 16 && forall i :: 0 <= i < 16 ==> zero[i] == 0
    ensures BitsOf(zero) == F.Accum(y, x, 0) && F.TimesTn(y, 0) == y
  {
    assert BitsOf(zero) == F.Zeros(128);
  }

  /** One round of the inner loop: take the current multiple if the bit of x is set, then double. */
  method MulStep(z: array<bv8>, v: array<bv8>, take: bool, ghost y: F.Block, ghost x: F.Block, ghost n: nat)
    requires z.Length == v.Length == 16 && z != v && n < 128
    requires take == x[n]
    requires BitsOf(z[..]) == F.Accum(y, x, n) && BitsOf(v[..]) == F.TimesTn(y, n)
    modifies z, v
    ensures BitsOf(z[..]) == F.Accum(y, x, n + 1) && BitsOf(v[..]) == F.TimesTn(y, n + 1)
  {
    hide BitsOf, F.TimesT;
    ghost var z0, v0 := z[..], v[..];
    if take {
      XorInto(z, v[..]);
      XorBytesBits(z0, v0);
    } else {
      assert F.Xor(BitsOf(z0), F.Zeros(128)) == BitsOf(z0);
    }
    assert v[..] == v0;
    ShiftRight(v);
    ShiftedBytesIsTimesT(v0, v[..]);
  }

  /** y := y * x in GF(2^128), whatever the two blocks are. */
  method GhashMul(y: array<bv8>, x: seq<bv8>)
    requires y.Length == |x| == 16
    modifies y
    ensures y[..] == MulBytes(old(y[..]), x)
  {
    hide BitsOf, Pack, F.Accum, F.TimesTn, F.Mul;
    ghost var Y, X: F.Block := BitsOf(y[..]), BitsOf(x);
    var z := new bv8[16](i => 0);
    var v := new bv8[16](i requires 0 <= i < 16 reads y => y[i]);
    assert v[..] == y[..];
    AccumStart(z[..], Y, X);
    for i := 0 to 16
      invariant y[..] == old(y[..])
      invariant BitsOf(z[..]) == F.Accum(Y, X, 8 * i)
      invariant BitsOf(v[..]) == F.TimesTn(Y, 8 * i)
    {
      for bit := 0 to 8
        invariant y[..] == old(y[..])
        invariant BitsOf(z[..]) == F.Accum(Y, X, 8 * i + bit)
        invariant BitsOf(v[..]) == F.TimesTn(Y, 8 * i + bit)
      {
        BitAt(x, i, bit);
        MulStep(z, v, x[i] & Mask(bit) != 0, Y, X, 8 * i + bit);
      }
    }
    for i := 0 to 16
      invariant forall k :: 0 <= k < i ==> y[k] == z[k]
      invariant BitsOf(z[..]) == F.Accum(Y, X, 128)
    {
      y[i] := z[i];
    }
    assert y[..] == z[..];
    F.AccumIsMul(Y, X);
    PackBitsOf(y[..]);
  }

  // ----- fb_ghash_update -----

  /** The next block of the data, padded with zero bytes. */
  function Padded(data: seq<bv8>): (b: seq<bv8>)
    ensures |b| == 16
  {
    if |data| >= 16 then data[..16] else data + seq(16 - |data|, i => 0)
  }

  function Rest(data: seq<bv8>): (r: seq<bv8>)
    ensures data != [] ==> |r| < |data|
  {
    if |data| >= 16 then data[16..] else []
  }

  function Blocks(data: seq<bv8>): (r: seq<F.Block>)
    decreases |data|
  {
    if data == [] then [] else [BitsOf(Padded(data))] + Blocks(Rest(data))
  }

  function UpdateBytes(h: seq<bv8>, y: seq<bv8>, data: seq<bv8>): (r: seq<bv8>)
    requires |h| == |y| == 16
    ensures |r| == 16
  {
    Pack(F.Horner(BitsOf(h), BitsOf(y), Blocks(data)))
  }

  /** Absorbs the zero-padded blocks of the data by the GHASH recurrence. */
  method GhashUpdate(h: seq<bv8>, data: seq<bv8>, y: array<bv8>)
    requires |h| == y.Length == 16
    modifies y
    ensures y[..] == UpdateBytes(h, old(y[..]), data)
  {
    ghost var H, Y: F.Block := BitsOf(h), BitsOf(y[..]);
    var rest := data;
    while rest != []
      invariant F.Horner(H, BitsOf(y[..]), Blocks(rest)) == F.Horner(H, Y, Blocks(data))
      decreases |rest|
    {
      ghost var y0 := y[..];
      var blk := Padded(rest);
      XorInto(y, blk);
      GhashMul(y, h);
      XorBytesBits(y0, blk);
      MulBytesBits(XorBytes(y0, blk), h);
      assert Blocks(rest)[0] == BitsOf(blk) && Blocks(rest)[1..] == Blocks(Rest(rest));
      rest := Rest(rest);
    }
    PackBitsOf(y[..]);
  }

  lemma {:induction false} BlocksAppend(a: seq<bv8>, b: seq<bv8>)
    requires |a| % 16 == 0
    ensures Blocks(a + b) == Blocks(a) + Blocks(b)
    decreases |a|
  {
    if a == [] {
      assert a + b == b;
    } else {
      assert Padded(a + b) == Padded(a);
      assert Rest(a + b) == Rest(a) + b;
      BlocksAppend(Rest(a), b);
    }
  }

  /** Absorbing a block-aligned prefix and then the rest is absorbing the whole. */
  lemma UpdateComposes(h: seq<bv8>, y: seq<bv8>, a: seq<bv8>, b: seq<bv8>)
    requires |h| == |y| == 16 && |a| % 16 == 0
    ensures UpdateBytes(h, y, a + b) == UpdateBytes(h, UpdateBytes(h, y, a), b)
  {
    BlocksAppend(a, b);
    F.HornerAppend(BitsOf(h), BitsOf(y), Blocks(a), Blocks(b));
    BitsOfPack(F.Horner(BitsOf(h), BitsOf(y), Blocks(a)));
  }

  /** From a zero start GHASH is X_1 * H^m + ... + X_m * H. */
  lemma UpdateIsPowerSum(h: seq<bv8>, data: seq<bv8>)
    requires |h| == 16
    ensures BitsOf(UpdateBytes(h, seq(16, i => 0), data)) == F.PowerSum(BitsOf(h), Blocks(data))
  {
    var H, zero: seq<bv8> := BitsOf(h), seq(16, i => 0);
    var n, s := |Blocks(data)|, F.PowerSum(H, Blocks(data));
    assert BitsOf(zero) == F.Zeros(128);
    BitsOfPack(F.Horner(H, BitsOf(zero), Blocks(data)));
    F.HornerIsPowerSum(H, F.Zeros(128), Blocks(data));
    F.MulZero(F.Pow(H, n));
    assert F.Xor(F.Zeros(128), s) == s;
  }
}
