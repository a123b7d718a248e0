/** What the S-box is: section 5.1.1 of FIPS-197, over the field of section 4.2. */
module AesField {
  import opened AesSbox
  import opened Aes

  // ----- the field -----

  function Pick(y: bv8, m: bv8, p: bv8): (r: bv8) {
    if y & m != 0 then p else 0
  }

  function Sum8(p0: bv8, p1: bv8, p2: bv8, p3: bv8, p4: bv8, p5: bv8, p6: bv8, p7: bv8): (r: bv8) {
    Add(Sum(p0, p1, p2, p3), Sum(p4, p5, p6, p7))
  }

  /** The sum of those p that the bits of y select. */
  function Select(y: bv8, p0: bv8, p1: bv8, p2: bv8, p3: bv8, p4: bv8, p5: bv8, p6: bv8, p7: bv8): (r: bv8) {
    Sum8(Pick(y, 0x01, p0), Pick(y, 0x02, p1), Pick(y, 0x04, p2), Pick(y, 0x08, p3),
         Pick(y, 0x10, p4), Pick(y, 0x20, p5), Pick(y, 0x40, p6), Pick(y, 0x80, p7))
  }

  /** The product in GF(2^8): of the multiples of x by powers of two, those that the bits of y select. */
  function Times(x: bv8, y: bv8): (r: bv8) {
    var x1 := XtFlat(x);
    var x2 := XtFlat(x1);
    var x3 := XtFlat(x2);
    var x4 := XtFlat(x3);
    var x5 := XtFlat(x4);
    var x6 := XtFlat(x5);
    Select(y, x, x1, x2, x3, x4, x5, x6, XtFlat(x6))
  }

  // ----- linear maps -----

  /** The bits of the sum are the sums of the bits. */
  lemma BitAdds(y: bv8, z: bv8, m: bv8)
    requires m == 0x01 || m == 0x02 || m == 0x04 || m == 0x08 || m == 0x10 || m == 0x20 || m == 0x40 || m == 0x80
    ensures Add(y, z) & m != 0 <==> (y & m != 0) != (z & m != 0)
  {
  }

  lemma AddSelf(p: bv8)
    ensures Add(p, p) == 0 && Add(p, 0) == p && Add(0, p) == p
  {
  }

  lemma PickAdds(y: bv8, z: bv8, m: bv8, p: bv8)
    requires m == 0x01 || m == 0x02 || m == 0x04 || m == 0x08 || m == 0x10 || m == 0x20 || m == 0x40 || m == 0x80
    ensures Pick(Add(y, z), m, p) == Add(Pick(y, m, p), Pick(z, m, p))
  {
    hide Add;
    BitAdds(y, z, m);
    AddSelf(p);
    AddSelf(0);
  }

  lemma PickOfSum(y: bv8, m: bv8, p: bv8, q: bv8)
    ensures Pick(y, m, Add(p, q)) == Add(Pick(y, m, p), Pick(y, m, q))
  {
    hide Add;
    AddSelf(0);
  }

  lemma Sum8Adds(p0: bv8, p1: bv8, p2: bv8, p3: bv8, p4: bv8, p5: bv8, p6: bv8, p7: bv8,
                 q0: bv8, q1: bv8, q2: bv8, q3: bv8, q4: bv8, q5: bv8, q6: bv8, q7: bv8)
    ensures Sum8(Add(p0, q0), Add(p1, q1), Add(p2, q2), Add(p3, q3), Add(p4, q4), Add(p5, q5), Add(p6, q6), Add(p7, q7))
         == Add(Sum8(p0, p1, p2, p3, p4, p5, p6, p7), Sum8(q0, q1, q2, q3, q4, q5, q6, q7))
  {
    hide Add, Sum;
    SumAdd(p0, p1, p2, p3, q0, q1, q2, q3);
    SumAdd(p4, p5, p6, p7, q4, q5, q6, q7);
    AddInterchange(Sum(p0, p1, p2, p3), Sum(p4, p5, p6, p7), Sum(q0, q1, q2, q3), Sum(q4, q5, q6, q7));
  }

  /** The selection is linear in the bits that select. */
  lemma SelectAdds(y: bv8, z: bv8, p0: bv8, p1: bv8, p2: bv8, p3: bv8, p4: bv8, p5: bv8, p6: bv8, p7: bv8)
    ensures Select(Add(y, z), p0, p1, p2, p3, p4, p5, p6, p7) == Add(Select(y, p0, p1, p2, p3, p4, p5, p6, p7), Select(z, p0, p1, p2, p3, p4, p5, p6, p7))
  {
    hide Add, Sum8, Pick;
    PickAdds(y, z, 0x01, p0);
    PickAdds(y, z, 0x02, p1);
    PickAdds(y, z, 0x04, p2);
    PickAdds(y, z, 0x08, p3);
    PickAdds(y, z, 0x10, p4);
    PickAdds(y, z, 0x20, p5);
    PickAdds(y, z, 0x40, p6);
    PickAdds(y, z, 0x80, p7);
    Sum8Adds(Pick(y, 0x01, p0), Pick(y, 0x02, p1), Pick(y, 0x04, p2), Pick(y, 0x08, p3),
             Pick(y, 0x10, p4), Pick(y, 0x20, p5), Pick(y, 0x40, p6), Pick(y, 0x80, p7),
             Pick(z, 0x01, p0), Pick(z, 0x02, p1), Pick(z, 0x04, p2), Pick(z, 0x08, p3),
             Pick(z, 0x10, p4), Pick(z, 0x20, p5), Pick(z, 0x40, p6), Pick(z, 0x80, p7));
  }

  /** And in what it selects from. */
  lemma SelectOfSums(y: bv8, p0: bv8, p1: bv8, p2: bv8, p3: bv8, p4: bv8, p5: bv8, p6: bv8, p7: bv8,
                     q0: bv8, q1: bv8, q2: bv8, q3: bv8, q4: bv8, q5: bv8, q6: bv8, q7: bv8)
    ensures Select(y, Add(p0, q0), Add(p1, q1), Add(p2, q2), Add(p3, q3),
                   Add(p4, q4), Add(p5, q5), Add(p6, q6), Add(p7, q7))
         == Add(Select(y, p0, p1, p2, p3, p4, p5, p6, p7), Select(y, q0, q1, q2, q3, q4, q5, q6, q7))
  {
    hide Add, Sum8, Pick;
    PickOfSum(y, 0x01, p0, q0);
    PickOfSum(y, 0x02, p1, q1);
    PickOfSum(y, 0x04, p2, q2);
    PickOfSum(y, 0x08, p3, q3);
    PickOfSum(y, 0x10, p4, q4);
    PickOfSum(y, 0x20, p5, q5);
    PickOfSum(y, 0x40, p6, q6);
    PickOfSum(y, 0x80, p7, q7);
    Sum8Adds(Pick(y, 0x01, p0), Pick(y, 0x02, p1), Pick(y, 0x04, p2), Pick(y, 0x08, p3),
             Pick(y, 0x10, p4), Pick(y, 0x20, p5), Pick(y, 0x40, p6), Pick(y, 0x80, p7),
             Pick(y, 0x01, q0), Pick(y, 0x02, q1), Pick(y, 0x04, q2), Pick(y, 0x08, q3),
             Pick(y, 0x10, q4), Pick(y, 0x20, q5), Pick(y, 0x40, q6), Pick(y, 0x80, q7));
  }

  ghost predicate Linear(f: bv8 -> bv8) {
    f(0) == 0 && forall p, q :: f(Add(p, q)) == Add(f(p), f(q))
  }

  lemma LinearSum4(f: bv8 -> bv8, p: bv8, q: bv8, r: bv8, s: bv8)
    requires Linear(f)
    ensures f(Sum(p, q, r, s)) == Sum(f(p), f(q), f(r), f(s))
  {
    hide Add, Sum;
    SumIsAdds(p, q, r, s);
    SumIsAdds(f(p), f(q), f(r), f(s));
  }

  lemma LinearPick(f: bv8 -> bv8, y: bv8, m: bv8, p: bv8)
    requires Linear(f)
    ensures f(Pick(y, m, p)) == Pick(y, m, f(p))
  {
    hide Add;
  }

  /** A linear map goes through a selection. */
  lemma LinearSelect(f: bv8 -> bv8, y: bv8, p0: bv8, p1: bv8, p2: bv8, p3: bv8, p4: bv8, p5: bv8, p6: bv8, p7: bv8)
    requires Linear(f)
    ensures f(Select(y, p0, p1, p2, p3, p4, p5, p6, p7)) == Select(y, f(p0), f(p1), f(p2), f(p3), f(p4), f(p5), f(p6), f(p7))
  {
    hide Add, Sum, Pick;
    LinearPick(f, y, 0x01, p0);
    LinearPick(f, y, 0x02, p1);
    LinearPick(f, y, 0x04, p2);
    LinearPick(f, y, 0x08, p3);
    LinearPick(f, y, 0x10, p4);
    LinearPick(f, y, 0x20, p5);
    LinearPick(f, y, 0x40, p6);
    LinearPick(f, y, 0x80, p7);
    LinearSum4(f, Pick(y, 0x01, p0), Pick(y, 0x02, p1), Pick(y, 0x04, p2), Pick(y, 0x08, p3));
    LinearSum4(f, Pick(y, 0x10, p4), Pick(y, 0x20, p5), Pick(y, 0x40, p6), Pick(y, 0x80, p7));
  }

  lemma XtIsLinear()
    ensures Linear(XtFlat)
  {
    hide XtFlat;
    XtZero();
    forall p, q
      ensures XtFlat(Add(p, q)) == Add(XtFlat(p), XtFlat(q))
    {
      FlatXor(p, q);
    }
  }

  lemma XtZero()
    ensures XtFlat(0) == 0
  {
  }

  lemma TimesAdds(x: bv8, y: bv8, z: bv8)
    ensures Times(x, Add(y, z)) == Add(Times(x, y), Times(x, z))
  {
    hide Select, XtFlat, Add;
    var x1 := XtFlat(x);
    var x2 := XtFlat(x1);
    var x3 := XtFlat(x2);
    var x4 := XtFlat(x3);
    var x5 := XtFlat(x4);
    var x6 := XtFlat(x5);
    SelectAdds(y, z, x, x1, x2, x3, x4, x5, x6, XtFlat(x6));
  }

  lemma SumTimes(x: bv8, z: bv8, y: bv8)
    ensures Times(Add(x, z), y) == Add(Times(x, y), Times(z, y))
  {
    hide Select, XtFlat, Add;
    XtIsLinear();
    var x1, z1 := XtFlat(x), XtFlat(z);
    var x2, z2 := XtFlat(x1), XtFlat(z1);
    var x3, z3 := XtFlat(x2), XtFlat(z2);
    var x4, z4 := XtFlat(x3), XtFlat(z3);
    var x5, z5 := XtFlat(x4), XtFlat(z4);
    var x6, z6 := XtFlat(x5), XtFlat(z5);
    SelectOfSums(y, x, x1, x2, x3, x4, x5, x6, XtFlat(x6), z, z1, z2, z3, z4, z5, z6, XtFlat(z6));
  }

  lemma TimesZero(x: bv8)
    ensures Times(x, 0) == 0 && Times(0, x) == 0
  {
    hide XtFlat;
    XtZero();
  }

  // ----- the field's laws -----

  lemma SelectPowers(y: bv8)
    ensures Select(y, 0x01, 0x02, 0x04, 0x08, 0x10, 0x20, 0x40, 0x80) == y
  {
  }

  lemma XtPowers()
    ensures XtFlat(0x01) == 0x02 && XtFlat(0x02) == 0x04 && XtFlat(0x04) == 0x08 && XtFlat(0x08) == 0x10
    ensures XtFlat(0x10) == 0x20 && XtFlat(0x20) == 0x40 && XtFlat(0x40) == 0x80
  {
  }

  lemma OneTimes(y: bv8)
    ensures Times(1, y) == y
  {
    hide XtFlat, Select;
    XtPowers();
    SelectPowers(y);
  }

  /** A factor x goes through from the left. */
  lemma XtTimes(x: bv8, y: bv8)
    ensures Times(XtFlat(x), y) == XtFlat(Times(x, y))
  {
    hide XtFlat, Select;
    XtIsLinear();
    var x1 := XtFlat(x);
    var x2 := XtFlat(x1);
    var x3 := XtFlat(x2);
    var x4 := XtFlat(x3);
    var x5 := XtFlat(x4);
    var x6 := XtFlat(x5);
    LinearSelect(XtFlat, y, x, x1, x2, x3, x4, x5, x6, XtFlat(x6));
  }

  /** Multiplication commutes. */
  lemma TimesCommutes(x: bv8, y: bv8)
    ensures Times(x, y) == Times(y, x)
  {
    hide XtFlat, Select, Add;
    var f := p => Times(p, y);
    forall p, q
      ensures f(Add(p, q)) == Add(f(p), f(q))
    {
      SumTimes(p, q, y);
    }
    TimesZero(y);
    SelectPowers(x);
    LinearSelect(f, x, 0x01, 0x02, 0x04, 0x08, 0x10, 0x20, 0x40, 0x80);
    PowersTimes(y);
  }

  lemma PowersTimes(y: bv8)
    ensures Times(0x01, y) == y
    ensures var y1 := XtFlat(y);
      var y2 := XtFlat(y1);
      var y3 := XtFlat(y2);
      var y4 := XtFlat(y3);
      var y5 := XtFlat(y4);
      var y6 := XtFlat(y5);
      && Times(0x02, y) == y1 && Times(0x04, y) == y2 && Times(0x08, y) == y3 && Times(0x10, y) == y4
      && Times(0x20, y) == y5 && Times(0x40, y) == y6 && Times(0x80, y) == XtFlat(y6)
  {
    hide XtFlat, Times;
    OneTimes(y);
    XtPowers();
    XtTimes(0x01, y);
    XtTimes(0x02, y);
    XtTimes(0x04, y);
    XtTimes(0x08, y);
    XtTimes(0x10, y);
    XtTimes(0x20, y);
    XtTimes(0x40, y);
  }

  lemma TimesXt(x: bv8, y: bv8)
    ensures Times(x, XtFlat(y)) == XtFlat(Times(x, y))
  {
    hide XtFlat, Times;
    TimesCommutes(x, XtFlat(y));
    XtTimes(y, x);
    TimesCommutes(y, x);
  }

  /** Multiplication is associative. */
  lemma TimesAssociates(a: bv8, x: bv8, y: bv8)
    ensures Times(a, Times(x, y)) == Times(Times(a, x), y)
  {
    hide XtFlat, Select, Add;
    var f := p => Times(a, p);
    forall p, q
      ensures f(Add(p, q)) == Add(f(p), f(q))
    {
      TimesAdds(a, p, q);
    }
    TimesZero(a);
    var x1 := XtFlat(x);
    var x2 := XtFlat(x1);
    var x3 := XtFlat(x2);
    var x4 := XtFlat(x3);
    var x5 := XtFlat(x4);
    var x6 := XtFlat(x5);
    LinearSelect(f, y, x, x1, x2, x3, x4, x5, x6, XtFlat(x6));
    TimesXt(a, x);
    TimesXt(a, x1);
    TimesXt(a, x2);
    TimesXt(a, x3);
    TimesXt(a, x4);
    TimesXt(a, x5);
    TimesXt(a, x6);
  }

  // ----- the table -----

  /** The affine map: b, its rotations by one to four, and {63}. */
  function Affine(b: bv8): (r: bv8) {
    b ^ (b << 1) ^ (b >> 7) ^ (b << 2) ^ (b >> 6) ^ (b << 3) ^ (b >> 5) ^ (b << 4) ^ (b >> 4) ^ 0x63
  }

  function UnAffine(b: bv8): (r: bv8) {
    (b << 1) ^ (b >> 7) ^ (b << 3) ^ (b >> 5) ^ (b << 6) ^ (b >> 2) ^ 0x05
  }

  lemma AffineUndone(b: bv8)
    ensures Affine(UnAffine(b)) == b
  {
  }

  /** The field element whose affine image the table holds. */
  function Inverse(x: bv8): (y: bv8) {
    UnAffine(SubByte(x))
  }

  // ----- the look through the table, a quarter at a time -----

  lemma InvertsFrom00(x: bv8)
    requires x & 0xC0 == 0x00
    ensures x != 0 ==> Times(Inverse(x), x) == 1
  {
  }

  lemma InvertsFrom40(x: bv8)
    requires x & 0xC0 == 0x40
    ensures x != 0 ==> Times(Inverse(x), x) == 1
  {
  }

  lemma InvertsFrom80(x: bv8)
    requires x & 0xC0 == 0x80
    ensures x != 0 ==> Times(Inverse(x), x) == 1
  {
  }

  lemma InvertsFromC0(x: bv8)
    requires x & 0xC0 == 0xC0
    ensures x != 0 ==> Times(Inverse(x), x) == 1
  {
  }

  lemma InverseInverts(x: bv8)
    ensures x != 0 ==> Times(Inverse(x), x) == 1
  {
    hide Times, Inverse;
    if x & 0xC0 == 0 {
      InvertsFrom00(x);
    } else if x & 0xC0 == 0x40 {
      InvertsFrom40(x);
    } else if x & 0xC0 == 0x80 {
      InvertsFrom80(x);
    } else {
      TopBits(x);
      InvertsFromC0(x);
    }
  }

  lemma TopBits(x: bv8)
    ensures x & 0xC0 == 0 || x & 0xC0 == 0x40 || x & 0xC0 == 0x80 || x & 0xC0 == 0xC0
  {
  }

  lemma InverseOfZero()
    ensures Inverse(0) == 0
  {
  }

  /** Multiplying by the inverse undoes multiplying by x. */
  lemma InverseUndoes(x: bv8, y: bv8)
    requires x != 0
    ensures Times(Inverse(x), Times(x, y)) == y
  {
    hide Times, Inverse;
    InverseInverts(x);
    TimesAssociates(Inverse(x), x, y);
    OneTimes(y);
  }

  /**
   * The S-box entry of x is the affine image of x's inverse in the field, of which there is exactly
   * one; zero's is that of zero.
   */
  lemma SubByteIsAffineInverse(x: bv8, y: bv8)
    ensures x != 0 ==> (Times(x, y) == 1 <==> y == Inverse(x))
    ensures SubByte(x) == Affine(Inverse(x)) && Inverse(0) == 0
  {
    hide Times, Affine, UnAffine, SubByte;
    InverseOfZero();
    AffineUndone(SubByte(x));
    if x != 0 {
      InverseInverts(x);
      TimesCommutes(Inverse(x), x);
      InverseUndoes(x, y);
      TimesCommutes(Inverse(x), 1);
      OneTimes(Inverse(x));
    }
  }
}
