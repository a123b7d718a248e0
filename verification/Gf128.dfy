/**
 * The field arithmetic behind GHASH, written from section 6.3 of NIST SP 800-38D:
 * a block of 128 bits is a polynomial over GF(2), bit i being the coefficient of t^i.
 * Multiplication is the schoolbook product followed by long division by
 * t^128 + t^7 + t^2 + t + 1.
 */
module Gf128 {

  type Bits = seq<bool>
  type Block = p: Bits | |p| == 128 witness Zeros(128)

  function Zeros(n: nat): (r: Bits)
    ensures |r| == n
  {
    seq(n, i => false)
  }

  function Xor(p: Bits, q: Bits): (r: Bits)
    requires |p| == |q|
    ensures |r| == |p|
    ensures forall k :: 0 <= k < |p| ==> r[k] == (p[k] != q[k])
  {
    seq(|p|, k requires 0 <= k < |p| => p[k] != q[k])
  }

  function Scale(c: bool, p: Bits): (r: Bits)
    ensures |r| == |p|
  {
    if c then p else Zeros(|p|)
  }

  /** The coefficient of t^k, zero outside the polynomial. */
  predicate Coef(p: Bits, k: int) {
    0 <= k < |p| && p[k]
  }

  /** Coefficient k of the product p * q, summed over the first n terms of p. */
  predicate Conv(p: Bits, q: Bits, k: int, n: nat) {
    n != 0 && Conv(p, q, k, n - 1) != (Coef(p, n - 1) && Coef(q, k - (n - 1)))
  }

  function Prod(p: Bits, q: Bits): (r: Bits)
    ensures |r| == |p| + |q|
  {
    seq(|p| + |q|, k => Conv(p, q, k, |p|))
  }

  /** Is t^j a term of t^7 + t^2 + t + 1, which t^128 is congruent to? */
  predicate LowTerm(j: int) {
    j == 0 || j == 1 || j == 2 || j == 7
  }

  /** Replaces a leading term t^(|p|) by its lower terms. */
  function Fold(p: Bits): (r: Bits)
    requires |p| >= 128
    ensures |r| == |p|
    ensures forall k :: 0 <= k < |p| ==> r[k] == (p[k] != LowTerm(k - (|p| - 128)))
  {
    seq(|p|, k requires 0 <= k < |p| => p[k] != LowTerm(k - (|p| - 128)))
  }

  /** Remainder of the long division, one leading coefficient at a time. */
  function Rem(p: Bits): (r: Block)
    requires |p| >= 128
    decreases |p|
  {
    if |p| == 128 then p
    else
      var d := |p| - 1;
      if p[d] then Rem(Fold(p[..d])) else Rem(p[..d])
  }

  /** The remainder of t^128 is t^7 + t^2 + t + 1. */
  lemma FieldPolynomial(p: Bits)
    requires |p| == 129 && forall k :: 0 <= k < 129 ==> (p[k] <==> k == 128)
    ensures forall k :: 0 <= k < 128 ==> (Rem(p)[k] <==> k == 0 || k == 1 || k == 2 || k == 7)
  {
    assert Rem(p) == Rem(Fold(p[..128])) == Fold(p[..128]);
  }

  function Mul(y: Block, x: Block): (r: Block) {
    Rem(Prod(y, x))
  }

  function TimesT(v: Block): (r: Block) {
    Rem([false] + v)
  }

  lemma TimesTBit(v: Block, k: nat)
    requires k < 128
    ensures TimesT(v)[k] == ((k != 0 && v[k - 1]) != (v[127] && LowTerm(k)))
  {
    var p := [false] + v;
    assert p[128] == v[127];
    assert Rem(p[..128]) == p[..128];
    assert Rem(Fold(p[..128])) == Fold(p[..128]);
  }

  function TimesTn(v: Block, n: nat): (r: Block) {
    if n == 0 then v else TimesT(TimesTn(v, n - 1))
  }

  // ----- long division is linear and commutes with multiplication by t -----

  lemma {:induction false} RemXor(p: Bits, q: Bits)
    requires |p| == |q| >= 128
    ensures Rem(Xor(p, q)) == Xor(Rem(p), Rem(q))
    decreases |p|
  {
    if |p| > 128 {
      var d := |p| - 1;
      var p', q' := p[..d], q[..d];
      var p1 := if p[d] then Fold(p') else p';
      var q1 := if q[d] then Fold(q') else q';
      hide Fold, Xor;
      RemXor(p1, q1);
      XorParts(p, q, d);
      FoldXor(p', q');
    }
  }

  lemma XorParts(p: Bits, q: Bits, d: nat)
    requires |p| == |q| && d < |p|
    ensures Xor(p, q)[d] == (p[d] != q[d]) && Xor(p, q)[..d] == Xor(p[..d], q[..d])
  {
  }

  lemma FoldXor(p: Bits, q: Bits)
    requires |p| == |q| >= 128
    ensures Xor(Fold(p), q) == Fold(Xor(p, q)) == Xor(p, Fold(q)) && Xor(Fold(p), Fold(q)) == Xor(p, q)
  {
    hide LowTerm;
    assert Xor(Fold(p), q) == Fold(Xor(p, q));
    assert Xor(p, Fold(q)) == Fold(Xor(p, q));
    assert Xor(Fold(p), Fold(q)) == Xor(p, q);
  }

  lemma FoldShift(p: Bits)
    requires |p| >= 128
    ensures Fold([false] + p) == [false] + Fold(p)
  {
    assert Fold([false] + p) == [false] + Fold(p);
  }

  lemma {:induction false} RemShift(p: Bits)
    requires |p| >= 128
    ensures Rem([false] + p) == TimesT(Rem(p))
    decreases |p|
  {
    if |p| > 128 {
      var d := |p| - 1;
      var p1 := if p[d] then Fold(p[..d]) else p[..d];
      RemShift(p1);
      var s := [false] + p;
      assert s[|p|] == p[d];
      assert s[..|p|] == [false] + p[..d];
      FoldShift(p[..d]);
    }
  }

  lemma {:induction false} RemPad(p: Bits, m: nat)
    requires |p| >= 128
    ensures Rem(p + Zeros(m)) == Rem(p)
  {
    if m == 0 {
      assert p + Zeros(0) == p;
    } else {
      RemPad(p, m - 1);
      assert (p + Zeros(m))[..|p| + m - 1] == p + Zeros(m - 1);
    }
  }

  lemma {:induction false} RemZeros(n: nat)
    requires n >= 128
    ensures Rem(Zeros(n)) == Zeros(128)
  {
    RemPad(Zeros(128), n - 128);
    assert Zeros(128) + Zeros(n - 128) == Zeros(n);
  }

  /** t^n * y, at fixed length 256. */
  function Shifted(y: Block, n: nat): (r: Bits)
    requires n <= 128
    ensures |r| == 256
  {
    Zeros(n) + y + Zeros(128 - n)
  }

  lemma {:induction false} RemShifted(y: Block, n: nat)
    requires n <= 128
    ensures Rem(Shifted(y, n)) == TimesTn(y, n)
  {
    RemPad(Zeros(n) + y, 128 - n);
    RemPrefix(y, n);
  }

  lemma {:induction false} RemPrefix(y: Block, n: nat)
    ensures Rem(Zeros(n) + y) == TimesTn(y, n)
  {
    if n == 0 {
      assert Zeros(0) + y == y;
    } else {
      RemPrefix(y, n - 1);
      RemShift(Zeros(n - 1) + y);
      assert Zeros(n) + y == [false] + (Zeros(n - 1) + y);
    }
  }

  // ----- the product, accumulated one bit of x at a time -----

  /** Sum of x_i * t^i * y over i < n, reduced: what the loop of fb_ghash_mul holds after n bits. */
  function Accum(y: Block, x: Block, n: nat): (r: Block)
    requires n <= 128
  {
    if n == 0 then Zeros(128) else Xor(Accum(y, x, n - 1), Scale(x[n - 1], TimesTn(y, n - 1)))
  }

  function Partial(y: Block, x: Block, n: nat): (r: Bits)
    ensures |r| == 256
  {
    seq(256, k => Conv(x, y, k, n))
  }

  lemma {:induction false} AccumIsRem(y: Block, x: Block, n: nat)
    requires n <= 128
    ensures Accum(y, x, n) == Rem(Partial(y, x, n))
  {
    if n == 0 {
      RemZeros(256);
      assert Partial(y, x, 0) == Zeros(256);
    } else {
      AccumIsRem(y, x, n - 1);
      var term := Scale(x[n - 1], Shifted(y, n - 1));
      forall k | 0 <= k < 256
        ensures Partial(y, x, n)[k] == (Partial(y, x, n - 1)[k] != term[k])
      {
        assert Shifted(y, n - 1)[k] == Coef(y, k - (n - 1));
      }
      assert Partial(y, x, n) == Xor(Partial(y, x, n - 1), term);
      RemXor(Partial(y, x, n - 1), term);
      RemShifted(y, n - 1);
      RemZeros(256);
    }
  }

  // ----- the schoolbook product is symmetric -----

  /** Terms past the end of either factor are zero, so the sum stops growing. */
  lemma {:induction false} ConvStable(p: Bits, q: Bits, k: nat, m: nat, n: nat)
    requires m <= n
    requires |p| <= m || k < m
    ensures Conv(p, q, k, n) == Conv(p, q, k, m)
  {
    if m < n {
      ConvStable(p, q, k, m, n - 1);
    }
  }

  /** Peeling the first term of p instead of the last. */
  lemma {:induction false} ConvReverse(p: Bits, q: Bits, k: nat, n: nat)
    requires n <= k + 1
    ensures (Conv(p, q, k, k + 1 - n) != Conv(q, p, k, n)) == Conv(p, q, k, k + 1)
  {
    if n != 0 {
      ConvReverse(p, q, k, n - 1);
    }
  }

  lemma ConvSymmetric(p: Bits, q: Bits, k: nat)
    ensures Conv(p, q, k, |p|) == Conv(q, p, k, |q|)
  {
    var n := k + 1 + |p| + |q|;
    ConvStable(p, q, k, |p|, n);
    ConvStable(p, q, k, k + 1, n);
    ConvStable(q, p, k, |q|, n);
    ConvStable(q, p, k, k + 1, n);
    ConvReverse(p, q, k, k + 1);
  }

  lemma ProdSymmetric(p: Bits, q: Bits)
    ensures Prod(p, q) == Prod(q, p)
  {
    forall k: nat | k < |p| + |q|
      ensures Prod(p, q)[k] == Prod(q, p)[k]
    {
      ConvSymmetric(p, q, k);
    }
  }

  // ----- the commutative ring of blocks -----

  lemma MulCommutes(y: Block, x: Block)
    ensures Mul(y, x) == Mul(x, y)
  {
    ProdSymmetric(y, x);
  }

  /** Bit-serial accumulation computes the product. */
  lemma AccumIsMul(y: Block, x: Block)
    ensures Accum(y, x, 128) == Mul(y, x)
  {
    AccumIsRem(y, x, 128);
    ProdSymmetric(x, y);
    assert Partial(y, x, 128) == Prod(x, y);
  }

  lemma TimesTXor(a: Block, b: Block)
    ensures TimesT(Xor(a, b)) == Xor(TimesT(a), TimesT(b))
  {
    RemXor([false] + a, [false] + b);
    assert [false] + Xor(a, b) == Xor([false] + a, [false] + b);
  }

  lemma {:induction false} TimesTnXor(a: Block, b: Block, n: nat)
    ensures TimesTn(Xor(a, b), n) == Xor(TimesTn(a, n), TimesTn(b, n))
  {
    if n != 0 {
      TimesTnXor(a, b, n - 1);
      TimesTXor(TimesTn(a, n - 1), TimesTn(b, n - 1));
    }
  }

  lemma {:induction false} AccumXor(a: Block, b: Block, x: Block, n: nat)
    requires n <= 128
    ensures Accum(Xor(a, b), x, n) == Xor(Accum(a, x, n), Accum(b, x, n))
  {
    if n == 0 {
      assert Xor(Zeros(128), Zeros(128)) == Zeros(128);
    } else {
      AccumXor(a, b, x, n - 1);
      TimesTnXor(a, b, n - 1);
      assert Accum(Xor(a, b), x, n) == Xor(Accum(a, x, n), Accum(b, x, n));
    }
  }

  lemma MulDistributes(a: Block, b: Block, x: Block)
    ensures Mul(Xor(a, b), x) == Xor(Mul(a, x), Mul(b, x))
    ensures Mul(x, Xor(a, b)) == Xor(Mul(x, a), Mul(x, b))
  {
    AccumXor(a, b, x, 128);
    AccumIsMul(Xor(a, b), x);
    AccumIsMul(a, x);
    AccumIsMul(b, x);
    MulCommutes(Xor(a, b), x);
    MulCommutes(a, x);
    MulCommutes(b, x);
  }

  lemma {:induction false} TimesTnCommutes(v: Block, n: nat)
    ensures TimesTn(TimesT(v), n) == TimesT(TimesTn(v, n))
  {
    if n != 0 {
      TimesTnCommutes(v, n - 1);
    }
  }

  lemma {:induction false} AccumTimesT(y: Block, x: Block, n: nat)
    requires n <= 128
    ensures Accum(TimesT(y), x, n) == TimesT(Accum(y, x, n))
  {
    if n == 0 {
      RemZeros(129);
      assert [false] + Zeros(128) == Zeros(129);
    } else {
      AccumTimesT(y, x, n - 1);
      TimesTnCommutes(y, n - 1);
      TimesTXor(Accum(y, x, n - 1), Scale(x[n - 1], TimesTn(y, n - 1)));
      RemZeros(129);
      assert [false] + Zeros(128) == Zeros(129);
    }
  }

  lemma {:induction false} MulTimesTn(y: Block, x: Block, n: nat)
    ensures Mul(TimesTn(y, n), x) == TimesTn(Mul(y, x), n)
  {
    if n != 0 {
      MulTimesTn(y, x, n - 1);
      AccumTimesT(TimesTn(y, n - 1), x, 128);
      AccumIsMul(TimesTn(y, n - 1), x);
      AccumIsMul(TimesTn(y, n), x);
    }
  }

  lemma MulZero(x: Block)
    ensures Mul(Zeros(128), x) == Zeros(128)
  {
    MulDistributes(Zeros(128), Zeros(128), x);
    assert Xor(Zeros(128), Zeros(128)) == Zeros(128);
    assert Xor(Mul(Zeros(128), x), Mul(Zeros(128), x)) == Zeros(128);
  }

  lemma {:induction false} MulAccum(a: Block, b: Block, c: Block, n: nat)
    requires n <= 128
    ensures Mul(Accum(b, c, n), a) == Accum(Mul(b, a), c, n)
  {
    if n == 0 {
      MulZero(a);
    } else {
      MulAccum(a, b, c, n - 1);
      MulDistributes(Accum(b, c, n - 1), Scale(c[n - 1], TimesTn(b, n - 1)), a);
      MulTimesTn(b, a, n - 1);
      MulZero(a);
    }
  }

  lemma MulAssociates(a: Block, b: Block, c: Block)
    ensures Mul(Mul(a, b), c) == Mul(a, Mul(b, c))
  {
    MulAccum(a, b, c, 128);
    AccumIsMul(b, c);
    AccumIsMul(Mul(b, a), c);
    MulCommutes(a, b);
    MulCommutes(Mul(b, c), a);
  }

  const One: Block := [true] + Zeros(127)

  lemma {:induction false} AccumOne(y: Block, n: nat)
    requires 1 <= n <= 128
    ensures Accum(y, One, n) == y
  {
    if n == 1 {
      assert Accum(y, One, 0) == Zeros(128);
      assert Xor(Zeros(128), y) == y;
    } else {
      AccumOne(y, n - 1);
      assert Xor(y, Zeros(128)) == y;
    }
  }

  lemma MulOne(y: Block)
    ensures Mul(y, One) == y
  {
    AccumOne(y, 128);
    AccumIsMul(y, One);
  }

  // ----- GHASH: Horner evaluation and its closed form -----

  /** The recurrence Y_i = (Y_(i-1) + X_i) * H of section 6.4 of NIST SP 800-38D. */
  function Horner(h: Block, y: Block, blocks: seq<Block>): (r: Block)
    decreases |blocks|
  {
    if blocks == [] then y else Horner(h, Mul(Xor(y, blocks[0]), h), blocks[1..])
  }

  function Pow(h: Block, n: nat): (r: Block) {
    if n == 0 then One else Mul(Pow(h, n - 1), h)
  }

  /** X_1 * H^m + X_2 * H^(m-1) + ... + X_m * H. */
  function PowerSum(h: Block, blocks: seq<Block>): (r: Block) {
    if blocks == [] then Zeros(128)
    else Xor(Mul(blocks[0], Pow(h, |blocks|)), PowerSum(h, blocks[1..]))
  }

  lemma {:induction false} PowComm(h: Block, n: nat)
    ensures Mul(h, Pow(h, n)) == Pow(h, n + 1)
  {
    MulCommutes(h, Pow(h, n));
  }

  lemma {:induction false} HornerIsPowerSum(h: Block, y: Block, blocks: seq<Block>)
    ensures Horner(h, y, blocks) == Xor(Mul(y, Pow(h, |blocks|)), PowerSum(h, blocks))
    decreases |blocks|
  {
    if blocks == [] {
      MulOne(y);
      assert Xor(y, Zeros(128)) == y;
    } else {
      var m, rest := |blocks| - 1, blocks[1..];
      HornerIsPowerSum(h, Mul(Xor(y, blocks[0]), h), rest);
      MulAssociates(Xor(y, blocks[0]), h, Pow(h, m));
      PowComm(h, m);
      MulDistributes(y, blocks[0], Pow(h, m + 1));
      XorAssociates(Mul(y, Pow(h, m + 1)), Mul(blocks[0], Pow(h, m + 1)), PowerSum(h, rest));
    }
  }

  lemma XorAssociates(a: Block, b: Block, c: Block)
    ensures Xor(Xor(a, b), c) == Xor(a, Xor(b, c))
  {
    assert Xor(Xor(a, b), c) == Xor(a, Xor(b, c));
  }

  lemma {:induction false} HornerAppend(h: Block, y: Block, a: seq<Block>, b: seq<Block>)
    ensures Horner(h, y, a + b) == Horner(h, Horner(h, y, a), b)
    decreases |a|
  {
    if a == [] {
      assert a + b == b;
    } else {
      assert (a + b)[1..] == a[1..] + b;
      HornerAppend(h, Mul(Xor(y, a[0]), h), a[1..], b);
    }
  }
}
