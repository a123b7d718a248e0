/**
 * AES-256: fb_aes256_keyexpand and fb_aes256_encrypt_block against FIPS-197.
 * The state is the 16-byte sequence of section 3.4 of FIPS-197, column after column.
 */
module Aes {
  import opened Bytes
  import opened AesSbox

  type Block = s: seq<bv8> | |s| == 16 witness seq(16, i => 0)
  type Schedule = w: seq<bv32> | |w| == 60 witness seq(60, i => 0)

  // ----- the transformations of section 5.1 -----

  function Xt(x: bv8): (r: bv8) {
    (x << 1) ^ if x & 0x80 != 0 then 0x1b else 0
  }

  /** One byte function applied to the whole state. */
  function Map<T>(f: T -> T, s: seq<T>): (r: seq<T>)
    requires |s| == 16
    ensures |r| == 16
  {
    [f(s[0]), f(s[1]), f(s[2]), f(s[3]), f(s[4]), f(s[5]), f(s[6]), f(s[7]),
     f(s[8]), f(s[9]), f(s[10]), f(s[11]), f(s[12]), f(s[13]), f(s[14]), f(s[15])]
  }

  function SubBytes(s: Block): (r: Block) {
    Map(SubByte, s)
  }

  function ShiftRows(s: Block): (r: Block) {
    [s[0], s[5], s[10], s[15], s[4], s[9], s[14], s[3], s[8], s[13], s[2], s[7], s[12], s[1], s[6], s[11]]
  }

  /** Addition in GF(2^8). */
  function Add(x: bv8, y: bv8): (r: bv8) {
    x ^ y
  }

  /** The sum of four bytes. */
  function Sum(p: bv8, q: bv8, r: bv8, s: bv8): (res: bv8) {
    p ^ q ^ r ^ s
  }

  function Xt3(x: bv8): (r: bv8) {
    Xt(x) ^ x
  }

  function MixByte(a: bv8, b: bv8, c: bv8, d: bv8): (r: bv8) {
    Sum(Xt(a), Xt3(b), c, d)
  }

  /** One row of a circulant matrix applied to every rotation of every column. */
  function Columns<T>(f: (T, T, T, T) -> T, s: seq<T>): (r: seq<T>)
    requires |s| == 16
    ensures |r| == 16
  {
    [f(s[0], s[1], s[2], s[3]), f(s[1], s[2], s[3], s[0]), f(s[2], s[3], s[0], s[1]), f(s[3], s[0], s[1], s[2]),
     f(s[4], s[5], s[6], s[7]), f(s[5], s[6], s[7], s[4]), f(s[6], s[7], s[4], s[5]), f(s[7], s[4], s[5], s[6]),
     f(s[8], s[9], s[10], s[11]), f(s[9], s[10], s[11], s[8]), f(s[10], s[11], s[8], s[9]), f(s[11], s[8], s[9], s[10]),
     f(s[12], s[13], s[14], s[15]), f(s[13], s[14], s[15], s[12]), f(s[14], s[15], s[12], s[13]), f(s[15], s[12], s[13], s[14])]
  }

  function MixColumns(s: Block): (r: Block) {
    Columns(MixByte, s)
  }

  function KeyByte(w: bv32, r: nat): (res: bv8)
    requires r < 4
  {
    if r == 0 then ((w >> 24) & 0xff) as bv8
    else if r == 1 then ((w >> 16) & 0xff) as bv8
    else if r == 2 then ((w >> 8) & 0xff) as bv8
    else (w & 0xff) as bv8
  }

  function RoundKey(w: Schedule, round: nat): (r: Block)
    requires round <= 14
  {
    hide KeyByte;
    [KeyByte(w[4 * round], 0), KeyByte(w[4 * round], 1), KeyByte(w[4 * round], 2), KeyByte(w[4 * round], 3),
     KeyByte(w[4 * round + 1], 0), KeyByte(w[4 * round + 1], 1), KeyByte(w[4 * round + 1], 2), KeyByte(w[4 * round + 1], 3),
     KeyByte(w[4 * round + 2], 0), KeyByte(w[4 * round + 2], 1), KeyByte(w[4 * round + 2], 2), KeyByte(w[4 * round + 2], 3),
     KeyByte(w[4 * round + 3], 0), KeyByte(w[4 * round + 3], 1), KeyByte(w[4 * round + 3], 2), KeyByte(w[4 * round + 3], 3)]
  }

  function Zip<T>(f: (T, T) -> T, s: seq<T>, k: seq<T>): (r: seq<T>)
    requires |s| == |k| == 16
    ensures |r| == 16
  {
    [f(s[0], k[0]), f(s[1], k[1]), f(s[2], k[2]), f(s[3], k[3]), f(s[4], k[4]), f(s[5], k[5]), f(s[6], k[6]), f(s[7], k[7]),
     f(s[8], k[8]), f(s[9], k[9]), f(s[10], k[10]), f(s[11], k[11]), f(s[12], k[12]), f(s[13], k[13]), f(s[14], k[14]), f(s[15], k[15])]
  }

  function AddRoundKey(s: Block, w: Schedule, round: nat): (r: Block)
    requires round <= 14
  {
    Zip(Add, s, RoundKey(w, round))
  }

  /** The state after the initial key addition and n full rounds. */
  function Rounds(w: Schedule, input: Block, n: nat): (r: Block)
    requires n <= 13
  {
    if n == 0 then AddRoundKey(input, w, 0)
    else AddRoundKey(MixColumns(ShiftRows(SubBytes(Rounds(w, input, n - 1)))), w, n)
  }

  /** The 60 words hold 15 round keys: the first and the last are for the key additions outside the 13 full rounds. */
  function Cipher(w: Schedule, input: Block): (r: Block) {
    AddRoundKey(ShiftRows(SubBytes(Rounds(w, input, |w| / 4 - 2))), w, 14)
  }

  // ----- the inverse cipher of section 5.3 -----

  function InvShiftRows(s: Block): (r: Block) {
    [s[0], s[13], s[10], s[7], s[4], s[1], s[14], s[11], s[8], s[5], s[2], s[15], s[12], s[9], s[6], s[3]]
  }

  function InvSubBytes(s: Block): (r: Block) {
    Map(InvSubByte, s)
  }

  /** Products with the entries {0e}, {0b}, {0d}, {09} of the inverse matrix. */
  function Times0e(x: bv8): (r: bv8) {
    Sum(Xt(Xt(Xt(x))), Xt(Xt(x)), Xt(x), 0)
  }

  function Times0b(x: bv8): (r: bv8) {
    Sum(Xt(Xt(Xt(x))), Xt(x), x, 0)
  }

  function Times0d(x: bv8): (r: bv8) {
    Sum(Xt(Xt(Xt(x))), Xt(Xt(x)), x, 0)
  }

  function Times09(x: bv8): (r: bv8) {
    Sum(Xt(Xt(Xt(x))), x, 0, 0)
  }

  function InvMixByte(a: bv8, b: bv8, c: bv8, d: bv8): (r: bv8) {
    Sum(Times0e(a), Times0b(b), Times0d(c), Times09(d))
  }

  function InvMixColumns(s: Block): (r: Block) {
    Columns(InvMixByte, s)
  }

  /** Undoes full rounds n, n - 1, ..., 1 and the initial key addition. */
  function InvRounds(w: Schedule, s: Block, n: nat): (r: Block)
    requires n <= 13
    decreases n
  {
    hide SubByte, InvSubByte, MixByte, InvMixByte, KeyByte, Add;
    if n == 0 then AddRoundKey(s, w, 0)
    else InvRounds(w, InvSubBytes(InvShiftRows(InvMixColumns(AddRoundKey(s, w, n)))), n - 1)
  }

  function InvCipher(w: Schedule, output: Block): (r: Block) {
    InvRounds(w, InvSubBytes(InvShiftRows(AddRoundKey(output, w, 14))), |w| / 4 - 2)
  }

  // ----- the inverse cipher undoes the cipher -----

  /** Xt without a branch, which the bit-vector solver prefers. */
  function XtFlat(x: bv8): (r: bv8) {
    var h := x >> 7;
    (x << 1) ^ h ^ (h << 1) ^ (h << 3) ^ (h << 4)
  }

  lemma XtIsFlat(x: bv8)
    ensures Xt(x) == XtFlat(x)
  {
  }

  lemma XtAdd(x: bv8, y: bv8)
    ensures Xt(Add(x, y)) == Add(Xt(x), Xt(y))
  {
    XtIsFlat(x);
    XtIsFlat(y);
    XtIsFlat(x ^ y);
    FlatXor(x, y);
  }

  lemma FlatXor(x: bv8, y: bv8)
    ensures XtFlat(x ^ y) == XtFlat(x) ^ XtFlat(y)
  {
  }

  lemma SumIsAdds(p: bv8, q: bv8, r: bv8, s: bv8)
    ensures Sum(p, q, r, s) == Add(Add(Add(p, q), r), s)
  {
  }

  lemma AddAssociates(p: bv8, q: bv8, r: bv8)
    ensures Add(Add(p, q), r) == Add(p, Add(q, r))
  {
  }

  lemma AddCommutes(p: bv8, q: bv8)
    ensures Add(p, q) == Add(q, p)
  {
  }

  lemma AddInterchange(p: bv8, q: bv8, p': bv8, q': bv8)
    ensures Add(Add(p, p'), Add(q, q')) == Add(Add(p, q), Add(p', q'))
  {
    hide Add;
    AddAssociates(p, p', Add(q, q'));
    AddAssociates(p', q, q');
    AddCommutes(p', q);
    AddAssociates(q, p', q');
    AddAssociates(p, q, Add(p', q'));
  }

  lemma AddZero()
    ensures Add(0, 0) == 0
  {
  }

  lemma SumAdd(p: bv8, q: bv8, r: bv8, s: bv8, p': bv8, q': bv8, r': bv8, s': bv8)
    ensures Sum(Add(p, p'), Add(q, q'), Add(r, r'), Add(s, s')) == Add(Sum(p, q, r, s), Sum(p', q', r', s'))
  {
    hide Add, Sum;
    SumIsAdds(p, q, r, s);
    SumIsAdds(p', q', r', s');
    SumIsAdds(Add(p, p'), Add(q, q'), Add(r, r'), Add(s, s'));
    AddInterchange(p, q, p', q');
    AddInterchange(Add(p, q), r, Add(p', q'), r');
    AddInterchange(Add(Add(p, q), r), s, Add(Add(p', q'), r'), s');
  }

  /** The four products are linear. */
  lemma TimesAdd(x: bv8, y: bv8)
    ensures Times0e(Add(x, y)) == Add(Times0e(x), Times0e(y))
    ensures Times0b(Add(x, y)) == Add(Times0b(x), Times0b(y))
    ensures Times0d(Add(x, y)) == Add(Times0d(x), Times0d(y))
    ensures Times09(Add(x, y)) == Add(Times09(x), Times09(y))
  {
    hide Xt, Sum, Add;
    var x1, y1 := Xt(x), Xt(y);
    var x2, y2 := Xt(x1), Xt(y1);
    var x3, y3 := Xt(x2), Xt(y2);
    XtAdd(x, y);
    XtAdd(x1, y1);
    XtAdd(x2, y2);
    assert Add(0, 0) == 0 by {
      AddZero();
    }
    SumAdd(x3, x2, x1, 0, y3, y2, y1, 0);
    SumAdd(x3, x1, x, 0, y3, y1, y, 0);
    SumAdd(x3, x2, x, 0, y3, y2, y, 0);
    SumAdd(x3, x, 0, 0, y3, y, 0, 0);
  }

  lemma TimesSum(p: bv8, q: bv8, r: bv8, s: bv8)
    ensures Times0e(Sum(p, q, r, s)) == Sum(Times0e(p), Times0e(q), Times0e(r), Times0e(s))
    ensures Times0b(Sum(p, q, r, s)) == Sum(Times0b(p), Times0b(q), Times0b(r), Times0b(s))
    ensures Times0d(Sum(p, q, r, s)) == Sum(Times0d(p), Times0d(q), Times0d(r), Times0d(s))
    ensures Times09(Sum(p, q, r, s)) == Sum(Times09(p), Times09(q), Times09(r), Times09(s))
  {
    hide Times0e, Times0b, Times0d, Times09, Add, Sum;
    TimesAdd(p, q);
    TimesAdd(Add(p, q), r);
    TimesAdd(Add(Add(p, q), r), s);
    SumIsAdds(p, q, r, s);
    SumIsAdds(Times0e(p), Times0e(q), Times0e(r), Times0e(s));
    SumIsAdds(Times0b(p), Times0b(q), Times0b(r), Times0b(s));
    SumIsAdds(Times0d(p), Times0d(q), Times0d(r), Times0d(s));
    SumIsAdds(Times09(p), Times09(q), Times09(r), Times09(s));
  }

  /** First row of the inverse matrix times each column of the matrix: 1, 0, 0, 0. */
  lemma InverseRow(x: bv8)
    ensures Sum(Times0e(Xt(x)), Times0b(x), Times0d(x), Times09(Xt3(x))) == x
    ensures Sum(Times0e(Xt3(x)), Times0b(Xt(x)), Times0d(x), Times09(x)) == 0
    ensures Sum(Times0e(x), Times0b(Xt3(x)), Times0d(Xt(x)), Times09(x)) == 0
    ensures Sum(Times0e(x), Times0b(x), Times0d(Xt3(x)), Times09(Xt(x))) == 0
  {
  }

  /** Regroups a double sum by columns. */
  lemma Transpose(e: bv8, e1: bv8, e2: bv8, e3: bv8, b: bv8, b1: bv8, b2: bv8, b3: bv8,
                  d: bv8, d1: bv8, d2: bv8, d3: bv8, n: bv8, n1: bv8, n2: bv8, n3: bv8)
    ensures Sum(Sum(e, e1, e2, e3), Sum(b, b1, b2, b3), Sum(d, d1, d2, d3), Sum(n, n1, n2, n3))
         == Sum(Sum(e, b3, d2, n1), Sum(e1, b, d3, n2), Sum(e2, b1, d, n3), Sum(e3, b2, d1, n))
    ensures Sum(e, 0, 0, 0) == e
  {
  }

  lemma InvMixByteUndoes(a: bv8, b: bv8, c: bv8, d: bv8)
    ensures InvMixByte(MixByte(a, b, c, d), MixByte(b, c, d, a), MixByte(c, d, a, b), MixByte(d, a, b, c)) == a
  {
    hide Xt, Xt3, Times0e, Times0b, Times0d, Times09, Sum;
    var a1, b1, c1, d1 := Xt(a), Xt(b), Xt(c), Xt(d);
    var a3, b3, c3, d3 := Xt3(a), Xt3(b), Xt3(c), Xt3(d);
    TimesSum(a1, b3, c, d);
    TimesSum(b1, c3, d, a);
    TimesSum(c1, d3, a, b);
    TimesSum(d1, a3, b, c);
    InverseRow(a);
    InverseRow(b);
    InverseRow(c);
    InverseRow(d);
    Transpose(Times0e(a1), Times0e(b3), Times0e(c), Times0e(d), Times0b(b1), Times0b(c3), Times0b(d), Times0b(a),
              Times0d(c1), Times0d(d3), Times0d(a), Times0d(b), Times09(d1), Times09(a3), Times09(b), Times09(c));
    Transpose(a, 0, 0, 0, 0, 0, 0, 0, 0, 0, 0, 0, 0, 0, 0, 0);
  }

  lemma MapUndone<T(!new)>(f: T -> T, g: T -> T, s: seq<T>)
    requires |s| == 16 && forall x :: g(f(x)) == x
    ensures Map(g, Map(f, s)) == s
  {
  }

  lemma ColumnsUndone<T(!new)>(f: (T, T, T, T) -> T, g: (T, T, T, T) -> T, s: seq<T>)
    requires |s| == 16
    requires forall a, b, c, d :: g(f(a, b, c, d), f(b, c, d, a), f(c, d, a, b), f(d, a, b, c)) == a
    ensures Columns(g, Columns(f, s)) == s
  {
  }

  lemma ZipUndone<T(!new)>(f: (T, T) -> T, s: seq<T>, k: seq<T>)
    requires |s| == |k| == 16 && forall x, y :: f(f(x, y), y) == x
    ensures Zip(f, Zip(f, s, k), k) == s
  {
  }

  lemma SubBytesUndone(s: Block)
    ensures InvSubBytes(SubBytes(s)) == s
  {
    hide Map;
    forall x: bv8
      ensures InvSubByte(SubByte(x)) == x
    {
      InvSubByteUndoes(x);
    }
    MapUndone(SubByte, InvSubByte, s);
  }

  lemma MixColumnsUndone(s: Block)
    ensures InvMixColumns(MixColumns(s)) == s
  {
    hide Columns, MixByte, InvMixByte;
    forall a: bv8, b: bv8, c: bv8, d: bv8
      ensures InvMixByte(MixByte(a, b, c, d), MixByte(b, c, d, a), MixByte(c, d, a, b), MixByte(d, a, b, c)) == a
    {
      InvMixByteUndoes(a, b, c, d);
    }
    ColumnsUndone(MixByte, InvMixByte, s);
  }

  lemma ShiftRowsUndone(s: Block)
    ensures InvShiftRows(ShiftRows(s)) == s
  {
  }

  lemma AddUndone(x: bv8, k: bv8)
    ensures Add(Add(x, k), k) == x
  {
  }

  lemma AddRoundKeyUndone(s: Block, w: Schedule, round: nat)
    requires round <= 14
    ensures AddRoundKey(AddRoundKey(s, w, round), w, round) == s
  {
    hide Add, RoundKey, Zip;
    forall x: bv8, k: bv8
      ensures Add(Add(x, k), k) == x
    {
      AddUndone(x, k);
    }
    ZipUndone(Add, s, RoundKey(w, round));
  }

  lemma {:induction false} RoundsUndone(w: Schedule, input: Block, n: nat)
    requires n <= 13
    ensures InvRounds(w, Rounds(w, input, n), n) == input
  {
    hide SubBytes, InvSubBytes, ShiftRows, InvShiftRows, MixColumns, InvMixColumns, AddRoundKey;
    AddRoundKeyUndone(input, w, 0);
    if n != 0 {
      var s := Rounds(w, input, n - 1);
      AddRoundKeyUndone(MixColumns(ShiftRows(SubBytes(s))), w, n);
      MixColumnsUndone(ShiftRows(SubBytes(s)));
      ShiftRowsUndone(SubBytes(s));
      SubBytesUndone(s);
      RoundsUndone(w, input, n - 1);
    }
  }

  /** The inverse cipher of FIPS-197 recovers every input block under every schedule. */
  lemma InvCipherUndoes(w: Schedule, input: Block)
    ensures InvCipher(w, Cipher(w, input)) == input
  {
    hide SubBytes, InvSubBytes, ShiftRows, InvShiftRows, AddRoundKey, Rounds, InvRounds;
    var n := |w| / 4 - 2;
    var s := Rounds(w, input, n);
    AddRoundKeyUndone(ShiftRows(SubBytes(s)), w, 14);
    ShiftRowsUndone(SubBytes(s));
    SubBytesUndone(s);
    RoundsUndone(w, input, n);
  }

  lemma CipherInjective(w: Schedule, a: Block, b: Block)
    requires Cipher(w, a) == Cipher(w, b)
    ensures a == b
  {
    hide Cipher, InvCipher;
    InvCipherUndoes(w, a);
    InvCipherUndoes(w, b);
  }

  // ----- fb_aes256_encrypt_block -----

  /** The 4 x 4 matrix read column after column. */
  function Flatten(m: array2<bv8>): (r: Block)
    requires m.Length0 == m.Length1 == 4
    reads m
  {
    [m[0, 0], m[1, 0], m[2, 0], m[3, 0], m[0, 1], m[1, 1], m[2, 1], m[3, 1],
     m[0, 2], m[1, 2], m[2, 2], m[3, 2], m[0, 3], m[1, 3], m[2, 3], m[3, 3]]
  }

  method AddKey(s: array2<bv8>, w: Schedule, round: nat)
    requires s.Length0 == s.Length1 == 4 && round <= 14
    modifies s
    ensures Flatten(s) == AddRoundKey(old(Flatten(s)), w, round)
  {
    hide KeyByte, Add;
    for r := 0 to 4
      invariant forall i, c :: 0 <= i < r && 0 <= c < 4 ==> s[i, c] == Add(old(s[i, c]), KeyByte(w[4 * round + c], i))
      invariant forall i, c :: r <= i < 4 && 0 <= c < 4 ==> s[i, c] == old(s[i, c])
    {
      for c := 0 to 4
        invariant forall i, c' :: 0 <= i < r && 0 <= c' < 4 ==> s[i, c'] == Add(old(s[i, c']), KeyByte(w[4 * round + c'], i))
        invariant forall i, c' :: r < i < 4 && 0 <= c' < 4 ==> s[i, c'] == old(s[i, c'])
        invariant forall c' :: 0 <= c' < c ==> s[r, c'] == Add(old(s[r, c']), KeyByte(w[4 * round + c'], r))
        invariant forall c' :: c <= c' < 4 ==> s[r, c'] == old(s[r, c'])
      {
        s[r, c] := Add(s[r, c], KeyByte(w[4 * round + c], r));
      }
    }
  }

  /** ShiftRows and SubBytes in one pass over the matrix. */
  method SubShift(s: array2<bv8>, t: array2<bv8>)
    requires s.Length0 == s.Length1 == t.Length0 == t.Length1 == 4 && s != t
    modifies t
    ensures Flatten(t) == ShiftRows(SubBytes(Flatten(s)))
  {
    hide SubByte;
    for r := 0 to 4
      invariant forall i, c :: 0 <= i < r && 0 <= c < 4 ==> t[i, c] == SubByte(s[i, (c + i) % 4])
    {
      for c := 0 to 4
        invariant forall i, c' :: 0 <= i < r && 0 <= c' < 4 ==> t[i, c'] == SubByte(s[i, (c' + i) % 4])
        invariant forall c' :: 0 <= c' < c ==> t[r, c'] == SubByte(s[r, (c' + r) % 4])
      {
        t[r, c] := SubByte(s[r, (c + r) % 4]);
      }
    }
  }

  lemma MixedMatrix(t: array2<bv8>, s: array2<bv8>)
    requires s.Length0 == s.Length1 == t.Length0 == t.Length1 == 4
    requires forall j :: 0 <= j < 4 ==>
      && s[0, j] == MixByte(t[0, j], t[1, j], t[2, j], t[3, j])
      && s[1, j] == MixByte(t[1, j], t[2, j], t[3, j], t[0, j])
      && s[2, j] == MixByte(t[2, j], t[3, j], t[0, j], t[1, j])
      && s[3, j] == MixByte(t[3, j], t[0, j], t[1, j], t[2, j])
    ensures Flatten(s) == MixColumns(Flatten(t))
  {
    hide MixByte;
  }

  method MixOne(t: array2<bv8>, s: array2<bv8>, c: nat)
    requires s.Length0 == s.Length1 == t.Length0 == t.Length1 == 4 && s != t && c < 4
    modifies s
    ensures s[0, c] == MixByte(t[0, c], t[1, c], t[2, c], t[3, c])
    ensures s[1, c] == MixByte(t[1, c], t[2, c], t[3, c], t[0, c])
    ensures s[2, c] == MixByte(t[2, c], t[3, c], t[0, c], t[1, c])
    ensures s[3, c] == MixByte(t[3, c], t[0, c], t[1, c], t[2, c])
    ensures forall i, j :: 0 <= i < 4 && 0 <= j < 4 && j != c ==> s[i, j] == old(s[i, j])
  {
    hide MixByte, Row0, Row1, Row2, Row3;
    var a0, a1, a2, a3 := t[0, c], t[1, c], t[2, c], t[3, c];
    RowsAreMixBytes(a0, a1, a2, a3);
    s[0, c] := Row0(a0, a1, a2, a3);
    s[1, c] := Row1(a0, a1, a2, a3);
    s[2, c] := Row2(a0, a1, a2, a3);
    s[3, c] := Row3(a0, a1, a2, a3);
  }

  method MixInto(t: array2<bv8>, s: array2<bv8>)
    requires s.Length0 == s.Length1 == t.Length0 == t.Length1 == 4 && s != t
    modifies s
    ensures Flatten(s) == MixColumns(Flatten(t))
  {
    hide MixByte, Flatten, MixColumns;
    for c := 0 to 4
      invariant forall j :: 0 <= j < c ==>
        && s[0, j] == MixByte(t[0, j], t[1, j], t[2, j], t[3, j])
        && s[1, j] == MixByte(t[1, j], t[2, j], t[3, j], t[0, j])
        && s[2, j] == MixByte(t[2, j], t[3, j], t[0, j], t[1, j])
        && s[3, j] == MixByte(t[3, j], t[0, j], t[1, j], t[2, j])
    {
      MixOne(t, s, c);
    }
    MixedMatrix(t, s);
  }

  // The four rows of the matrix as the code writes them.

  function Row0(a0: bv8, a1: bv8, a2: bv8, a3: bv8): (r: bv8) {
    Xt(a0) ^ (Xt(a1) ^ a1) ^ a2 ^ a3
  }

  function Row1(a0: bv8, a1: bv8, a2: bv8, a3: bv8): (r: bv8) {
    a0 ^ Xt(a1) ^ (Xt(a2) ^ a2) ^ a3
  }

  function Row2(a0: bv8, a1: bv8, a2: bv8, a3: bv8): (r: bv8) {
    a0 ^ a1 ^ Xt(a2) ^ (Xt(a3) ^ a3)
  }

  function Row3(a0: bv8, a1: bv8, a2: bv8, a3: bv8): (r: bv8) {
    (Xt(a0) ^ a0) ^ a1 ^ a2 ^ Xt(a3)
  }

  /** Each row is the first one applied to a rotated column. */
  lemma Row0IsMixByte(a0: bv8, a1: bv8, a2: bv8, a3: bv8)
    ensures Row0(a0, a1, a2, a3) == MixByte(a0, a1, a2, a3)
  {
    hide Xt;
  }

  lemma Row1IsMixByte(a0: bv8, a1: bv8, a2: bv8, a3: bv8)
    ensures Row1(a0, a1, a2, a3) == MixByte(a1, a2, a3, a0)
  {
    hide Xt;
  }

  lemma Row2IsMixByte(a0: bv8, a1: bv8, a2: bv8, a3: bv8)
    ensures Row2(a0, a1, a2, a3) == MixByte(a2, a3, a0, a1)
  {
    hide Xt;
  }

  lemma Row3IsMixByte(a0: bv8, a1: bv8, a2: bv8, a3: bv8)
    ensures Row3(a0, a1, a2, a3) == MixByte(a3, a0, a1, a2)
  {
    hide Xt;
  }

  lemma RowsAreMixBytes(a0: bv8, a1: bv8, a2: bv8, a3: bv8)
    ensures Row0(a0, a1, a2, a3) == MixByte(a0, a1, a2, a3)
    ensures Row1(a0, a1, a2, a3) == MixByte(a1, a2, a3, a0)
    ensures Row2(a0, a1, a2, a3) == MixByte(a2, a3, a0, a1)
    ensures Row3(a0, a1, a2, a3) == MixByte(a3, a0, a1, a2)
  {
    hide Row0, Row1, Row2, Row3, MixByte;
    Row0IsMixByte(a0, a1, a2, a3);
    Row1IsMixByte(a0, a1, a2, a3);
    Row2IsMixByte(a0, a1, a2, a3);
    Row3IsMixByte(a0, a1, a2, a3);
  }

  method Load(input: Block, s: array2<bv8>)
    requires s.Length0 == s.Length1 == 4
    modifies s
    ensures Flatten(s) == input
  {
    for r := 0 to 4
      invariant forall i, c :: 0 <= i < r && 0 <= c < 4 ==> s[i, c] == input[4 * c + i]
    {
      for c := 0 to 4
        invariant forall i, c' :: 0 <= i < r && 0 <= c' < 4 ==> s[i, c'] == input[4 * c' + i]
        invariant forall c' :: 0 <= c' < c ==> s[r, c'] == input[4 * c' + r]
      {
        s[r, c] := input[4 * c + r];
      }
    }
  }

  method Store(t: array2<bv8>, out: array<bv8>)
    requires t.Length0 == t.Length1 == 4 && out.Length == 16
    modifies out
    ensures out[..] == Flatten(t)
  {
    for r := 0 to 4
      invariant forall k :: 0 <= k < 16 && k % 4 < r ==> out[k] == t[k % 4, k / 4]
    {
      for c := 0 to 4
        invariant forall k :: 0 <= k < 16 && k % 4 < r ==> out[k] == t[k % 4, k / 4]
        invariant forall k :: 0 <= k < 16 && k % 4 == r && k / 4 < c ==> out[k] == t[k % 4, k / 4]
      {
        out[4 * c + r] := t[r, c];
      }
    }
  }

  /** The matrix rounds compute the cipher of section 5.1 of FIPS-197. */
  method EncryptBlock(w: Schedule, input: Block, out: array<bv8>)
    requires out.Length == 16
    modifies out
    ensures out[..] == Cipher(w, input)
  {
    hide SubBytes, ShiftRows, MixColumns, AddRoundKey, Flatten;
    var s, t := new bv8[4, 4], new bv8[4, 4];
    Load(input, s);
    AddKey(s, w, 0);
    for round := 1 to 14
      invariant Flatten(s) == Rounds(w, input, round - 1)
    {
      SubShift(s, t);
      MixInto(t, s);
      AddKey(s, w, round);
    }
    SubShift(s, t);
    AddKey(t, w, 14);
    Store(t, out);
  }

  // ----- fb_aes256_keyexpand -----

  function Word(b0: bv8, b1: bv8, b2: bv8, b3: bv8): (r: bv32) {
    (b0 as bv32 << 24) | (b1 as bv32 << 16) | (b2 as bv32 << 8) | b3 as bv32
  }

  function SubWord(w: bv32): (r: bv32) {
    Word(SubByte(KeyByte(w, 0)), SubByte(KeyByte(w, 1)), SubByte(KeyByte(w, 2)), SubByte(KeyByte(w, 3)))
  }

  function RotWord(w: bv32): (r: bv32) {
    (w << 8) | (w >> 24)
  }

  function AddWord(x: bv32, y: bv32): (r: bv32) {
    x ^ y
  }

  const Rcon: seq<bv32> := [0x01000000, 0x02000000, 0x04000000, 0x08000000, 0x10000000, 0x20000000, 0x40000000]

  /** What is added to word i - 8 to make word i, from word i - 1 (section 5.2 of FIPS-197). */
  function Temp(w: bv32, i: nat): (r: bv32)
    requires 8 <= i < 60
  {
    if i % 8 == 0 then AddWord(SubWord(RotWord(w)), Rcon[i / 8 - 1])
    else if i % 8 == 4 then SubWord(w)
    else w
  }

  /** Word i of the expansion of section 5.2. */
  function WordAt(key: seq<bv8>, i: nat): (r: bv32)
    requires |key| == 32 && i < 60
  {
    if i < 8 then Word(key[4 * i], key[4 * i + 1], key[4 * i + 2], key[4 * i + 3])
    else AddWord(WordAt(key, i - 8), Temp(WordAt(key, i - 1), i))
  }

  function Expand(key: seq<bv8>): (w: Schedule)
    requires |key| == 32
    ensures forall i :: 0 <= i < 60 ==> w[i] == WordAt(key, i)
  {
    seq(60, i requires 0 <= i < 60 => WordAt(key, i))
  }

  method KeyExpand(key: seq<bv8>, rk: array<bv32>)
    requires |key| == 32 && rk.Length == 60
    modifies rk
    ensures rk[..] == Expand(key)
  {
    hide Word, Temp, AddWord;
    for i := 0 to 8
      invariant forall k :: 0 <= k < i ==> rk[k] == WordAt(key, k)
    {
      rk[i] := Word(key[4 * i], key[4 * i + 1], key[4 * i + 2], key[4 * i + 3]);
    }
    for i := 8 to 60
      invariant forall k :: 0 <= k < i ==> rk[k] == WordAt(key, k)
    {
      rk[i] := AddWord(rk[i - 8], Temp(rk[i - 1], i));
    }
  }

  /** Any eight consecutive words of a schedule determine all the earlier ones. */
  lemma {:induction false} WordsDetermineEarlier(key: seq<bv8>, key': seq<bv8>, n: nat)
    requires |key| == |key'| == 32 && n + 8 <= 60
    requires forall i :: n <= i < n + 8 ==> WordAt(key, i) == WordAt(key', i)
    ensures forall i :: 0 <= i < n + 8 ==> WordAt(key, i) == WordAt(key', i)
  {
    hide Temp, AddWord, Word;
    if n > 0 {
      assert WordAt(key, n + 6) == WordAt(key', n + 6) && WordAt(key, n + 7) == WordAt(key', n + 7);
      AddWordCancels(WordAt(key, n - 1), WordAt(key', n - 1), Temp(WordAt(key, n + 6), n + 7));
      WordsDetermineEarlier(key, key', n - 1);
    }
  }

  lemma AddWordCancels(x: bv32, y: bv32, t: bv32)
    requires AddWord(x, t) == AddWord(y, t)
    ensures x == y
  {
    assert (x ^ t) ^ t == x && (y ^ t) ^ t == y;
  }

  lemma WordInjective(a: bv8, b: bv8, c: bv8, d: bv8, a': bv8, b': bv8, c': bv8, d': bv8)
    requires Word(a, b, c, d) == Word(a', b', c', d')
    ensures a == a' && b == b' && c == c' && d == d'
  {
  }

  /** So no two keys share the last eight words of their schedules. */
  lemma LastWordsDetermineKey(key: seq<bv8>, key': seq<bv8>)
    requires |key| == |key'| == 32 && Expand(key)[52..] == Expand(key')[52..]
    ensures key == key'
  {
    hide Word, WordAt;
    forall i | 52 <= i < 60
      ensures WordAt(key, i) == WordAt(key', i)
    {
      assert Expand(key)[52..][i - 52] == Expand(key')[52..][i - 52];
    }
    WordsDetermineEarlier(key, key', 52);
    forall k | 0 <= k < 32
      ensures key[k] == key'[k]
    {
      KeyBytes(key, key', k / 4);
      assert k == 4 * (k / 4) + k % 4;
    }
  }

  lemma KeyBytes(key: seq<bv8>, key': seq<bv8>, i: nat)
    requires |key| == |key'| == 32 && i < 8 && WordAt(key, i) == WordAt(key', i)
    ensures key[4 * i..4 * i + 4] == key'[4 * i..4 * i + 4]
  {
    hide Word;
    WordInjective(key[4 * i], key[4 * i + 1], key[4 * i + 2], key[4 * i + 3],
                  key'[4 * i], key'[4 * i + 1], key'[4 * i + 2], key'[4 * i + 3]);
  }

  // ----- the schedule, byte by byte -----

  /** The four bytes of a word, most significant first. */
  function FourBytes(w: bv32): (b: (bv8, bv8, bv8, bv8)) {
    (KeyByte(w, 0), KeyByte(w, 1), KeyByte(w, 2), KeyByte(w, 3))
  }

  /** So they are, in numbers. */
  lemma WordBytes(w: bv32)
    ensures var (b0, b1, b2, b3) := FourBytes(w);
      w == (b0 as bv32) * 0x1000000 + (b1 as bv32) * 0x10000 + (b2 as bv32) * 0x100 + b3 as bv32
  {
  }

  /** x to the power n in the field of bytes. */
  function XtPower(n: nat): (r: bv8) {
    if n == 0 then 1 else Xt(XtPower(n - 1))
  }

  lemma BytesOfWord(b0: bv8, b1: bv8, b2: bv8, b3: bv8)
    ensures FourBytes(Word(b0, b1, b2, b3)) == (b0, b1, b2, b3)
  {
  }

  lemma BytesOfRotated(w: bv32)
    ensures var (b0, b1, b2, b3) := FourBytes(w); FourBytes(RotWord(w)) == (b1, b2, b3, b0)
  {
  }

  function SubFour(b: (bv8, bv8, bv8, bv8)): (r: (bv8, bv8, bv8, bv8)) {
    (SubByte(b.0), SubByte(b.1), SubByte(b.2), SubByte(b.3))
  }

  lemma BytesOfSub(w: bv32)
    ensures FourBytes(SubWord(w)) == SubFour(FourBytes(w))
  {
    hide KeyByte, Word, SubByte;
    var b := SubFour(FourBytes(w));
    BytesOfWord(b.0, b.1, b.2, b.3);
  }

  lemma ByteOfSum0(x: bv32, y: bv32)
    ensures KeyByte(AddWord(x, y), 0) == KeyByte(x, 0) ^ KeyByte(y, 0)
  {
  }

  lemma ByteOfSum1(x: bv32, y: bv32)
    ensures KeyByte(AddWord(x, y), 1) == KeyByte(x, 1) ^ KeyByte(y, 1)
  {
  }

  lemma ByteOfSum2(x: bv32, y: bv32)
    ensures KeyByte(AddWord(x, y), 2) == KeyByte(x, 2) ^ KeyByte(y, 2)
  {
  }

  lemma ByteOfSum3(x: bv32, y: bv32)
    ensures KeyByte(AddWord(x, y), 3) == KeyByte(x, 3) ^ KeyByte(y, 3)
  {
  }

  lemma AddNothing(x: bv8)
    ensures x ^ 0 == x
  {
  }

  lemma BytesOfFirstSum(x: bv32, y: bv32, b: bv8)
    requires FourBytes(y) == (b, 0, 0, 0)
    ensures var (b0, b1, b2, b3) := FourBytes(x); FourBytes(AddWord(x, y)) == (b0 ^ b, b1, b2, b3)
  {
    hide KeyByte, AddWord;
    ByteOfSum0(x, y);
    ByteOfSum1(x, y);
    ByteOfSum2(x, y);
    ByteOfSum3(x, y);
    AddNothing(KeyByte(x, 1));
    AddNothing(KeyByte(x, 2));
    AddNothing(KeyByte(x, 3));
  }

  lemma XtPowers()
    ensures XtPower(0) == 1 && XtPower(1) == 2 && XtPower(2) == 4 && XtPower(3) == 8
    ensures XtPower(4) == 16 && XtPower(5) == 32 && XtPower(6) == 64
  {
    assert XtPower(1) == 2;
    assert XtPower(2) == 4;
    assert XtPower(3) == 8;
    assert XtPower(4) == 16;
    assert XtPower(5) == 32;
  }

  lemma BytesOfRcon(n: nat)
    requires n < 7
    ensures FourBytes(Rcon[n]) == (XtPower(n), 0, 0, 0)
  {
    hide XtPower;
    XtPowers();
    assert n == 0 || n == 1 || n == 2 || n == 3 || n == 4 || n == 5 || n == 6;
  }

  lemma SumUndone(x: bv32, t: bv32)
    ensures AddWord(x, t) ^ x == t
  {
  }

  lemma BytesOfTemp(w: bv32, i: nat)
    requires 8 <= i < 60
    ensures var p, t := FourBytes(w), Temp(w, i);
      if i % 8 == 0 then
        FourBytes(t) == (SubByte(p.1) ^ XtPower(i / 8 - 1), SubByte(p.2), SubByte(p.3), SubByte(p.0))
      else if i % 8 == 4 then FourBytes(t) == (SubByte(p.0), SubByte(p.1), SubByte(p.2), SubByte(p.3))
      else t == w
  {
    hide FourBytes, SubByte, RotWord, SubWord, AddWord, XtPower;
    if i % 8 == 0 {
      BytesOfRotated(w);
      BytesOfSub(RotWord(w));
      BytesOfRcon(i / 8 - 1);
      BytesOfFirstSum(SubWord(RotWord(w)), Rcon[i / 8 - 1], XtPower(i / 8 - 1));
    } else if i % 8 == 4 {
      BytesOfSub(w);
    }
  }

  /** The first eight words are those of the key: big-endian, four bytes each. */
  lemma KeyWordsByBytes(key: seq<bv8>, i: nat)
    requires |key| == 32 && i < 8
    ensures FourBytes(Expand(key)[i]) == (key[4 * i], key[4 * i + 1], key[4 * i + 2], key[4 * i + 3])
  {
    hide FourBytes, Word;
    BytesOfWord(key[4 * i], key[4 * i + 1], key[4 * i + 2], key[4 * i + 3]);
  }

  /** What is added to the word eight before. */
  lemma LaterWord(key: seq<bv8>, i: nat)
    requires |key| == 32 && 8 <= i < 60
    ensures var w := Expand(key); w[i] ^ w[i - 8] == Temp(w[i - 1], i)
  {
    hide AddWord, Word, Temp;
    var w := Expand(key);
    assert w[i] == AddWord(w[i - 8], Temp(w[i - 1], i));
    SumUndone(w[i - 8], Temp(w[i - 1], i));
  }

  /**
   * Section 5.2 of FIPS-197 on bytes. The sum of words i and i - 8 is word i - 1 through the S-box,
   * rotated and with a power of x added when i is a multiple of eight, in place when it is four more
   * than one, and word i - 1 as it is otherwise.
   */
  lemma ScheduleByBytes(key: seq<bv8>, i: nat)
    requires |key| == 32 && 8 <= i < 60
    ensures var w := Expand(key);
      var p, sum := FourBytes(w[i - 1]), w[i] ^ w[i - 8];
      if i % 8 == 0 then
        FourBytes(sum) == (SubByte(p.1) ^ XtPower(i / 8 - 1), SubByte(p.2), SubByte(p.3), SubByte(p.0))
      else if i % 8 == 4 then FourBytes(sum) == (SubByte(p.0), SubByte(p.1), SubByte(p.2), SubByte(p.3))
      else sum == w[i - 1]
  {
    hide FourBytes, SubByte, XtPower, Temp, Expand;
    LaterWord(key, i);
    BytesOfTemp(Expand(key)[i - 1], i);
  }

  // ----- the cipher, byte by byte -----

  lemma ShiftRowsAt(s: Block, c: nat, r: nat)
    requires c < 4 && r < 4
    ensures ShiftRows(s)[4 * c + r] == s[4 * ((c + r) % 4) + r]
  {
  }

  lemma ColumnsAt<T>(f: (T, T, T, T) -> T, s: seq<T>, c: nat, r: nat)
    requires |s| == 16 && c < 4 && r < 4
    ensures Columns(f, s)[4 * c + r]
         == f(s[4 * c + r], s[4 * c + (r + 1) % 4], s[4 * c + (r + 2) % 4], s[4 * c + (r + 3) % 4])
  {
  }

  lemma RoundKeyAt(w: Schedule, round: nat, c: nat, r: nat)
    requires round <= 14 && c < 4 && r < 4
    ensures RoundKey(w, round)[4 * c + r] == KeyByte(w[4 * round + c], r)
  {
    hide KeyByte;
    var i := 4 * round;
    if c == 0 {
      assert r == 0 || r == 1 || r == 2 || r == 3;
    } else if c == 1 {
      assert r == 0 || r == 1 || r == 2 || r == 3;
    } else if c == 2 {
      assert r == 0 || r == 1 || r == 2 || r == 3;
    } else {
      assert c == 3 && (r == 0 || r == 1 || r == 2 || r == 3);
    }
  }

  lemma ZipAt<T>(f: (T, T) -> T, s: seq<T>, k: seq<T>, i: nat)
    requires |s| == |k| == 16 && i < 16
    ensures Zip(f, s, k)[i] == f(s[i], k[i])
  {
  }

  lemma MapAt<T>(f: T -> T, s: seq<T>, i: nat)
    requires |s| == 16 && i < 16
    ensures Map(f, s)[i] == f(s[i])
  {
  }

  /** Byte r of column c after SubBytes and ShiftRows: from column c + r. */
  function Shifted(s: Block, c: nat, r: nat): (b: bv8)
    requires c < 4 && r < 4
  {
    SubByte(s[4 * ((c + r) % 4) + r])
  }

  lemma ShiftedAt(s: Block, c: nat, r: nat)
    requires c < 4 && r < 4
    ensures ShiftRows(SubBytes(s))[4 * c + r] == Shifted(s, c, r)
  {
    hide SubByte, Map, ShiftRows;
    ShiftRowsAt(SubBytes(s), c, r);
    MapAt(SubByte, s, 4 * ((c + r) % 4) + r);
  }

  lemma FirstRoundAt(w: Schedule, input: Block, c: nat, r: nat)
    requires c < 4 && r < 4
    ensures Rounds(w, input, 0)[4 * c + r] == input[4 * c + r] ^ KeyByte(w[c], r)
  {
    hide KeyByte, Zip, RoundKey;
    ZipAt(Add, input, RoundKey(w, 0), 4 * c + r);
    RoundKeyAt(w, 0, c, r);
  }

  function FullRound(w: Schedule, s: Block, n: nat): (t: Block)
    requires n <= 14
  {
    AddRoundKey(MixColumns(ShiftRows(SubBytes(s))), w, n)
  }

  lemma MixByteIs(a: bv8, b: bv8, c: bv8, d: bv8, k: bv8)
    ensures Add(MixByte(a, b, c, d), k) == Xt(a) ^ (Xt(b) ^ b) ^ c ^ d ^ k
  {
    hide Xt;
  }

  lemma FullRoundAt(w: Schedule, s: Block, n: nat, c: nat, r: nat)
    requires n < 14 && c < 4 && r < 4
    ensures RoundByte(s, FullRound(w, s, n), w, n, c, r)
  {
    hide KeyByte, Zip, RoundKey, Shifted, ShiftRows, SubBytes, Columns, Xt, MixByte, Add;
    var t := ShiftRows(SubBytes(s));
    assert FullRound(w, s, n) == Zip(Add, Columns(MixByte, t), RoundKey(w, n));
    ZipAt(Add, MixColumns(t), RoundKey(w, n), 4 * c + r);
    RoundKeyAt(w, n, c, r);
    ColumnsAt(MixByte, t, c, r);
    ShiftedAt(s, c, r);
    ShiftedAt(s, c, (r + 1) % 4);
    ShiftedAt(s, c, (r + 2) % 4);
    ShiftedAt(s, c, (r + 3) % 4);
    MixByteIs(Shifted(s, c, r), Shifted(s, c, (r + 1) % 4), Shifted(s, c, (r + 2) % 4), Shifted(s, c, (r + 3) % 4),
              KeyByte(w[4 * n + c], r));
  }

  lemma RoundsNext(w: Schedule, input: Block, n: nat)
    requires 0 < n <= 13
    ensures Rounds(w, input, n) == FullRound(w, Rounds(w, input, n - 1), n)
  {
    hide AddRoundKey, MixColumns, ShiftRows, SubBytes;
  }

  lemma LastRoundAt(w: Schedule, input: Block, c: nat, r: nat)
    requires c < 4 && r < 4
    ensures Cipher(w, input)[4 * c + r] == Shifted(Rounds(w, input, 13), c, r) ^ KeyByte(w[56 + c], r)
  {
    hide KeyByte, Zip, RoundKey, Shifted, ShiftRows, SubBytes, Rounds;
    var s := Rounds(w, input, |w| / 4 - 2);
    ZipAt(Add, ShiftRows(SubBytes(s)), RoundKey(w, 14), 4 * c + r);
    RoundKeyAt(w, 14, c, r);
    ShiftedAt(s, c, r);
  }

  /** Byte r of column c after a full round: S-box, shift, the row 2 3 1 1 of the column matrix, key. */
  predicate RoundByte(s: Block, t: Block, w: Schedule, n: nat, c: nat, r: nat)
    requires n < 14 && c < 4 && r < 4
  {
    t[4 * c + r] ==
      Xt(Shifted(s, c, r)) ^ (Xt(Shifted(s, c, (r + 1) % 4)) ^ Shifted(s, c, (r + 1) % 4))
      ^ Shifted(s, c, (r + 2) % 4) ^ Shifted(s, c, (r + 3) % 4) ^ KeyByte(w[4 * n + c], r)
  }

  ghost predicate RoundByBytes(s: Block, t: Block, w: Schedule, n: nat)
    requires n < 14
  {
    forall c: nat, r: nat :: c < 4 && r < 4 ==> RoundByte(s, t, w, n, c, r)
  }

  /**
   * Section 5.1 of FIPS-197 on bytes: fourteen states, the first the input with key words 0 to 3
   * added and each next one a full round of the one before; the output is the S-box bytes of the
   * last, shifted alike, and key words 56 to 59.
   */
  lemma CipherByBytes(w: Schedule, input: Block) returns (s: seq<Block>)
    ensures |s| == 14
    ensures forall c: nat, r: nat :: c < 4 && r < 4 ==> s[0][4 * c + r] == input[4 * c + r] ^ KeyByte(w[c], r)
    ensures forall n :: 0 < n < 14 ==> RoundByBytes(s[n - 1], s[n], w, n)
    ensures forall c: nat, r: nat :: c < 4 && r < 4 ==>
      Cipher(w, input)[4 * c + r] == Shifted(s[13], c, r) ^ KeyByte(w[56 + c], r)
  {
    hide KeyByte, Shifted, Rounds, Cipher, Xt, FullRound, RoundByte;
    s := seq(14, n requires 0 <= n < 14 => Rounds(w, input, n));
    forall c: nat, r: nat | c < 4 && r < 4
      ensures s[0][4 * c + r] == input[4 * c + r] ^ KeyByte(w[c], r)
      ensures Cipher(w, input)[4 * c + r] == Shifted(s[13], c, r) ^ KeyByte(w[56 + c], r)
    {
      FirstRoundAt(w, input, c, r);
      LastRoundAt(w, input, c, r);
    }
    forall n | 0 < n < 14
      ensures RoundByBytes(s[n - 1], s[n], w, n)
    {
      var before, after := s[n - 1], s[n];
      RoundsNext(w, input, n);
      forall c: nat, r: nat | c < 4 && r < 4
        ensures RoundByte(before, after, w, n, c, r)
      {
        FullRoundAt(w, before, n, c, r);
      }
    }
  }
}
