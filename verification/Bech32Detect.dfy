/**
The error detection that src/bech32.cpp:48-54 promises of its generator: a checksum polynomial with three
consecutive powers of an element of order 1023 among its roots detects up to three wrong symbols within a window of
1023.

The field of 1024 elements is represented by bit vectors: polynomials over two elements modulo
x^10 + x^8 + x^5 + x + 1.  The roots of the generator that count are x^24, x^25 and x^26.
*/
module Bech32Detect {
  import opened Common
  import opened Bech32

  // ------------------------------------------------------------------ the field of 1024 elements

  /** Addition. */
  function Add(a: bv10, b: bv10): bv10 { a ^ b }

  lemma AddLaws(a: bv10, b: bv10, c: bv10)
    ensures Add(a, b) == Add(b, a) && Add(Add(a, b), c) == Add(a, Add(b, c))
    ensures Add(a, a) == 0 && Add(a, 0) == a && Add(0, a) == a
    ensures Add(a, b) == 0 <==> a == b
  {}

  lemma AddSwap(a: bv10, b: bv10, c: bv10, d: bv10)
    ensures Add(Add(a, b), Add(c, d)) == Add(Add(a, c), Add(b, d))
  {
    hide Add;
    AddLaws(a, b, Add(c, d));
    AddLaws(b, c, d);
    AddLaws(c, b, d);
    AddLaws(a, c, Add(b, d));
  }

  /** Multiplication by x. */
  function Times(v: bv10): bv10 {
    Add(Shift(v), Reduction(v))
  }

  function Shift(v: bv10): bv10 { v << 1 }

  function Reduction(v: bv10): bv10 { if v & 0x200 != 0 then 0x123 else 0 }

  lemma ShiftLinear(a: bv10, b: bv10)
    ensures Shift(Add(a, b)) == Add(Shift(a), Shift(b))
  {}

  lemma ReductionLinear(a: bv10, b: bv10)
    ensures Reduction(Add(a, b)) == Add(Reduction(a), Reduction(b))
  {
    assert (a ^ b) & 0x200 == (a & 0x200) ^ (b & 0x200);
  }

  lemma TimesLinear(a: bv10, b: bv10)
    ensures Times(Add(a, b)) == Add(Times(a), Times(b)) && Times(0) == 0
    ensures Times(a) == 0 <==> a == 0
  {
    TimesInjective(a);
    hide Add, Shift, Reduction;
    ShiftLinear(a, b);
    ReductionLinear(a, b);
    AddSwap(Shift(a), Shift(b), Reduction(a), Reduction(b));
  }

  lemma TimesInjective(a: bv10)
    ensures Times(0) == 0 && (Times(a) == 0 <==> a == 0)
  {}

  function Pick(b: bool, c: bv10): bv10 { if b then c else 0 }

  lemma TimesPick(b: bool, c: bv10)
    ensures Times(Pick(b, c)) == Pick(b, Times(c))
  {}

  /** Sums of the multiples of c that the bits of v select: the product. */
  function LowFive(c: bv10, v: bv10): bv10 {
    var c1 := Times(c);
    var c2 := Times(c1);
    var c3 := Times(c2);
    var c4 := Times(c3);
    Add(Add(Add(Add(Pick(v & 1 != 0, c), Pick(v & 2 != 0, c1)), Pick(v & 4 != 0, c2)), Pick(v & 8 != 0, c3)),
        Pick(v & 16 != 0, c4))
  }

  function Product(c: bv10, v: bv10): bv10 {
    Add(LowFive(c, v), LowFive(Times(Times(Times(Times(Times(c))))), v >> 5))
  }

  lemma LowFiveTimes(c: bv10, v: bv10)
    ensures Times(LowFive(c, v)) == LowFive(Times(c), v)
  {
    hide Times, Add, Pick;
    var c1 := Times(c);
    var c2 := Times(c1);
    var c3 := Times(c2);
    var c4 := Times(c3);
    var p0, p1, p2 := Pick(v & 1 != 0, c), Pick(v & 2 != 0, c1), Pick(v & 4 != 0, c2);
    var p3, p4 := Pick(v & 8 != 0, c3), Pick(v & 16 != 0, c4);
    TimesLinear(p0, p1);
    TimesLinear(Add(p0, p1), p2);
    TimesLinear(Add(Add(p0, p1), p2), p3);
    TimesLinear(Add(Add(Add(p0, p1), p2), p3), p4);
    TimesPick(v & 1 != 0, c);
    TimesPick(v & 2 != 0, c1);
    TimesPick(v & 4 != 0, c2);
    TimesPick(v & 8 != 0, c3);
    TimesPick(v & 16 != 0, c4);
  }

  lemma ProductTimes(c: bv10, v: bv10)
    ensures Times(Product(c, v)) == Product(Times(c), v)
  {
    hide Times, Add, LowFive;
    var d := Times(Times(Times(Times(Times(c)))));
    TimesLinear(LowFive(c, v), LowFive(d, v >> 5));
    LowFiveTimes(c, v);
    LowFiveTimes(d, v >> 5);
  }

  lemma ProductOne(v: bv10)
    ensures Product(1, v) == v
  {}

  /** Multiplication by x^k. */
  function Power(k: nat, v: bv10): bv10 {
    if k == 0 then v else Times(Power(k - 1, v))
  }

  lemma {:induction false} PowerProduct(k: nat, v: bv10)
    ensures Power(k, v) == Product(Power(k, 1), v)
  {
    hide Times, Product;
    if k == 0 {
      ProductOne(v);
    } else {
      PowerProduct(k - 1, v);
      ProductTimes(Power(k - 1, 1), v);
    }
  }

  lemma {:induction false} PowerLinear(k: nat, a: bv10, b: bv10)
    ensures Power(k, Add(a, b)) == Add(Power(k, a), Power(k, b))
    ensures Power(k, 0) == 0 && (Power(k, a) == 0 <==> a == 0)
  {
    hide Times, Add;
    if k > 0 {
      PowerLinear(k - 1, a, b);
      TimesLinear(Power(k - 1, a), Power(k - 1, b));
    }
  }

  lemma {:induction false} PowerAdd(a: nat, b: nat, v: bv10)
    ensures Power(a + b, v) == Power(a, Power(b, v))
  {
    hide Times;
    if a > 0 { PowerAdd(a - 1, b, v); }
  }

  lemma PowerSum(a: nat, b: nat, ca: bv10, cb: bv10, c: bv10)
    requires Power(a, 1) == ca && Power(b, 1) == cb && Product(ca, cb) == c
    ensures Power(a + b, 1) == c
  {
    hide Power, Product;
    PowerAdd(a, b, 1);
    PowerProduct(a, cb);
  }

  // The powers of x that are needed.

  lemma FirstPowers()
    ensures Power(1, 1) == 2 && Power(3, 1) == 8
  {
    assert Power(0, 1) == 1;
    assert Power(1, 1) == 2;
    assert Power(2, 1) == 4;
  }

  lemma SixthPower()
    ensures Power(6, 1) == 64
  {
    hide Power;
    FirstPowers();
    PowerSum(3, 3, 8, 8, 64);
  }

  lemma Power24()
    ensures Power(24, 1) == 1008
  {
    hide Power;
    SixthPower();
    PowerSum(6, 6, 64, 64, 431);
    PowerSum(12, 12, 431, 431, 1008);
  }

  lemma RootPowers()
    ensures Power(24, 1) == 1008 && Power(25, 1) == 707 && Power(26, 1) == 165
  {
    hide Power;
    FirstPowers();
    Power24();
    PowerSum(24, 1, 1008, 2, 707);
    PowerSum(25, 1, 707, 2, 165);
  }

  lemma RootPowers24()
    ensures Power(24, 1) == 1008 && Power(48, 1) == 589 && Power(72, 1) == 697 && Power(96, 1) == 185 && Power(120, 1) == 9 && Power(144, 1) == 698
  {
    hide Power;
    RootPowers();
    PowerSum(24, 24, 1008, 1008, 589);
    PowerSum(48, 24, 589, 1008, 697);
    PowerSum(72, 24, 697, 1008, 185);
    PowerSum(96, 24, 185, 1008, 9);
    PowerSum(120, 24, 9, 1008, 698);
  }

  lemma RootPowers25()
    ensures Power(25, 1) == 707 && Power(50, 1) == 882 && Power(75, 1) == 324 && Power(100, 1) == 470 && Power(125, 1) == 288 && Power(150, 1) == 166
  {
    hide Power;
    RootPowers();
    PowerSum(25, 25, 707, 707, 882);
    PowerSum(50, 25, 882, 707, 324);
    PowerSum(75, 25, 324, 707, 470);
    PowerSum(100, 25, 470, 707, 288);
    PowerSum(125, 25, 288, 707, 166);
  }

  lemma RootPowers26()
    ensures Power(26, 1) == 165 && Power(52, 1) == 685 && Power(78, 1) == 102 && Power(104, 1) == 938 && Power(130, 1) == 637 && Power(156, 1) == 152
  {
    hide Power;
    RootPowers();
    PowerSum(26, 26, 165, 165, 685);
    PowerSum(52, 26, 685, 165, 102);
    PowerSum(78, 26, 102, 165, 938);
    PowerSum(104, 26, 938, 165, 637);
    PowerSum(130, 26, 637, 165, 152);
  }

  lemma OrderPowers()
    ensures Power(33, 1) == 176 && Power(93, 1) == 874 && Power(341, 1) == 54 && Power(1023, 1) == 1
  {
    hide Power;
    FirstPowers();
    SixthPower();
    RootPowers();
    PowerSum(24, 3, 1008, 8, 330);
    PowerSum(27, 6, 330, 64, 176);
    PowerSum(25, 6, 707, 64, 44);
    PowerSum(31, 31, 44, 44, 371);
    PowerSum(62, 31, 371, 44, 874);
    PowerSum(62, 62, 371, 371, 144);
    PowerSum(124, 124, 144, 144, 671);
    PowerSum(248, 62, 671, 371, 511);
    PowerSum(310, 31, 511, 44, 54);
    PowerSum(341, 341, 54, 54, 55);
    PowerSum(682, 341, 55, 54, 1);
  }

  // ------------------------------------------------------------------ symbols in the field

  /** The field of 32 elements within that of 1024. */
  function Embed(a: bv5): bv10 {
    Add(Add(Add(Add(Pick(a & 1 != 0, 1), Pick(a & 2 != 0, 14)), Pick(a & 4 != 0, 84)), Pick(a & 8 != 0, 856)),
        Pick(a & 16 != 0, 191))
  }

  lemma EmbedZero(a: bv5)
    ensures Embed(a) == 0 <==> a == 0
  {}

  lemma EmbedLinear(a: bv5, b: bv5)
    ensures Embed(Xor5(a, b)) == Add(Embed(a), Embed(b))
  {}

  /** A state, taken as a polynomial of degree five, at x^r. */
  function Eval(r: nat, m: bv32): bv10 {
    Add(Add(Add(Add(Add(
      Power(5 * r, Embed(Group(m, 0))), Power(4 * r, Embed(Group(m, 1)))), Power(3 * r, Embed(Group(m, 2)))),
      Power(2 * r, Embed(Group(m, 3)))), Power(r, Embed(Group(m, 4)))), Embed(Group(m, 5)))
  }

  datatype Six = Six(a: bv10, b: bv10, c: bv10, d: bv10, e: bv10, f: bv10)

  /** The sum of products with the powers of x^r. */
  function Dot(c: Six, v: Six): bv10 {
    Add(Add(Add(Add(Add(
      Product(c.a, v.a), Product(c.b, v.b)), Product(c.c, v.c)), Product(c.d, v.d)), Product(c.e, v.e)), v.f)
  }

  /** The coefficients of a state in the large field. */
  function Embedded(m: bv32): Six {
    Six(Embed(Group(m, 0)), Embed(Group(m, 1)), Embed(Group(m, 2)),
        Embed(Group(m, 3)), Embed(Group(m, 4)), Embed(Group(m, 5)))
  }

  function Powers(r: nat): Six {
    Six(Power(5 * r, 1), Power(4 * r, 1), Power(3 * r, 1), Power(2 * r, 1), Power(r, 1), 1)
  }

  lemma EvalIs(r: nat, m: bv32)
    ensures Eval(r, m) == Dot(Powers(r), Embedded(m))
  {
    hide Power, Product, Add, Embed, Group;
    PowerProduct(5 * r, Embed(Group(m, 0)));
    PowerProduct(4 * r, Embed(Group(m, 1)));
    PowerProduct(3 * r, Embed(Group(m, 2)));
    PowerProduct(2 * r, Embed(Group(m, 3)));
    PowerProduct(r, Embed(Group(m, 4)));
  }

  // The multiples of k(x) that the bits of c0 add, in the large field.

  lemma Multiple1()
    ensures Feedback(1) == 0x3b6a57b2 && Embed(1) == 1
    ensures Embedded(0x3b6a57b2) == Six(946, 229, 235, 234, 946, 177)
  {}

  lemma Multiple2()
    ensures Feedback(2) == 0x26508e6d && Embed(2) == 14
    ensures Embedded(0x26508e6d) == Six(176, 85, 1, 15, 176, 781)
  {}

  lemma Multiple4()
    ensures Feedback(4) == 0x1ea119fa && Embed(4) == 84
    ensures Embedded(0x1ea119fa) == Six(771, 854, 14, 90, 771, 1001)
  {}

  lemma Multiple8()
    ensures Feedback(8) == 0x3d4233dd && Embed(8) == 856
    ensures Embedded(0x3d4233dd) == Six(957, 235, 84, 780, 957, 946)
  {}

  lemma Multiple16()
    ensures Feedback(16) == 0x2a1462b3 && Embed(16) == 191
    ensures Embedded(0x2a1462b3) == Six(234, 1, 856, 999, 234, 176)
  {}

  // Their values at the three roots.

  function C24(): Six { Six(9, 185, 697, 589, 1008, 1) }

  lemma Root24Multiple1()
    ensures Dot(C24(), Six(946, 229, 235, 234, 946, 177)) == Product(698, 1)
  {}

  lemma Root24Products()
    ensures Product(9, 176) == 19 && Product(185, 85) == 496 && Product(697, 1) == 697
  {}

  lemma Root24Products'()
    ensures Product(589, 15) == 833 && Product(1008, 176) == 691 && Product(698, 14) == 421
  {}

  lemma Root24Multiple2()
    ensures Dot(C24(), Six(176, 85, 1, 15, 176, 781)) == Product(698, 14)
 {
    hide Product;
    Root24Products();
    Root24Products'();
  }

  lemma Root24Multiple4()
    ensures Dot(C24(), Six(771, 854, 14, 90, 771, 1001)) == Product(698, 84)
  {}

  lemma Root24Multiple8()
    ensures Dot(C24(), Six(957, 235, 84, 780, 957, 946)) == Product(698, 856)
  {}

  lemma Root24Multiple16()
    ensures Dot(C24(), Six(234, 1, 856, 999, 234, 176)) == Product(698, 191)
  {}

  function C25(): Six { Six(288, 470, 324, 882, 707, 1) }

  lemma Root25Multiple1()
    ensures Dot(C25(), Six(946, 229, 235, 234, 946, 177)) == Product(166, 1)
  {}

  lemma Root25Products()
    ensures Product(288, 176) == 608 && Product(470, 85) == 458 && Product(324, 1) == 324
  {}

  lemma Root25Products'()
    ensures Product(882, 15) == 609 && Product(707, 176) == 69 && Product(166, 14) == 967
  {}

  lemma Root25Multiple2()
    ensures Dot(C25(), Six(176, 85, 1, 15, 176, 781)) == Product(166, 14)
 {
    hide Product;
    Root25Products();
    Root25Products'();
  }

  lemma Root25Multiple4()
    ensures Dot(C25(), Six(771, 854, 14, 90, 771, 1001)) == Product(166, 84)
  {}

  lemma Root25Multiple8()
    ensures Dot(C25(), Six(957, 235, 84, 780, 957, 946)) == Product(166, 856)
  {}

  lemma Root25Multiple16()
    ensures Dot(C25(), Six(234, 1, 856, 999, 234, 176)) == Product(166, 191)
  {}

  function C26(): Six { Six(637, 938, 102, 685, 165, 1) }

  lemma Root26Multiple1()
    ensures Dot(C26(), Six(946, 229, 235, 234, 946, 177)) == Product(152, 1)
  {}

  lemma Root26Products()
    ensures Product(637, 176) == 250 && Product(938, 85) == 618 && Product(102, 1) == 102
  {}

  lemma Root26Products'()
    ensures Product(685, 15) == 962 && Product(165, 176) == 138 && Product(152, 14) == 691
  {}

  lemma Root26Multiple2()
    ensures Dot(C26(), Six(176, 85, 1, 15, 176, 781)) == Product(152, 14)
 {
    hide Product;
    Root26Products();
    Root26Products'();
  }

  lemma Root26Multiple4()
    ensures Dot(C26(), Six(771, 854, 14, 90, 771, 1001)) == Product(152, 84)
  {}

  lemma Root26Multiple8()
    ensures Dot(C26(), Six(957, 235, 84, 780, 957, 946)) == Product(152, 856)
  {}

  lemma Root26Multiple16()
    ensures Dot(C26(), Six(234, 1, 856, 999, 234, 176)) == Product(152, 191)
  {}

  /** The multiple a * k(x) that is added instead of a * x^6 has the same value at x^r. */
  ghost predicate RootOk(r: nat, a: bv5) {
    Eval(r, Feedback(a)) == Power(6 * r, Embed(a))
  }

  lemma BasisOk(r: nat, a: bv5)
    requires Dot(Powers(r), Embedded(Feedback(a))) == Product(Power(6 * r, 1), Embed(a))
    ensures RootOk(r, a)
  {
    hide Feedback, Power, Product, Embed, Embedded, Dot, Powers, Eval;
    EvalIs(r, Feedback(a));
    PowerProduct(6 * r, Embed(a));
  }

  lemma Multiples()
    ensures Embedded(Feedback(1)) == Six(946, 229, 235, 234, 946, 177) && Embed(1) == 1
    ensures Embedded(Feedback(2)) == Six(176, 85, 1, 15, 176, 781) && Embed(2) == 14
    ensures Embedded(Feedback(4)) == Six(771, 854, 14, 90, 771, 1001) && Embed(4) == 84
    ensures Embedded(Feedback(8)) == Six(957, 235, 84, 780, 957, 946) && Embed(8) == 856
    ensures Embedded(Feedback(16)) == Six(234, 1, 856, 999, 234, 176) && Embed(16) == 191
  {
    hide Feedback, Embedded, Embed;
    Multiple1();
    Multiple2();
    Multiple4();
    Multiple8();
    Multiple16();
  }

  lemma GroupLinear(x: bv32, y: bv32, j: nat)
    requires j < 6
    ensures Group(Xor(x, y), j) == Xor5(Group(x, j), Group(y, j))
  {
    if j == 0 {
      ShiftedGroup(x, y, 25);
    } else if j == 1 {
      ShiftedGroup(x, y, 20);
    } else if j == 2 {
      ShiftedGroup(x, y, 15);
    } else if j == 3 {
      ShiftedGroup(x, y, 10);
    } else if j == 4 {
      ShiftedGroup(x, y, 5);
    } else {
      LastGroup(x, y);
    }
  }

  lemma ShiftedGroup(x: bv32, y: bv32, k: bv5)
    ensures (((x ^ y) >> k) & 31) as bv5 == (((x >> k) & 31) as bv5) ^ (((y >> k) & 31) as bv5)
  {}

  lemma LastGroup(x: bv32, y: bv32)
    ensures ((x ^ y) & 31) as bv5 == ((x & 31) as bv5) ^ ((y & 31) as bv5)
  {}

  lemma TermLinear(k: nat, x: bv32, y: bv32, j: nat)
    requires j < 6
    ensures Power(k, Embed(Group(Xor(x, y), j))) == Add(Power(k, Embed(Group(x, j))), Power(k, Embed(Group(y, j))))
  {
    hide Power, Embed, Group, Xor, Xor5, Add;
    GroupLinear(x, y, j);
    EmbedLinear(Group(x, j), Group(y, j));
    PowerLinear(k, Embed(Group(x, j)), Embed(Group(y, j)));
  }

  /** The six terms of a value. */
  function Term(r: nat, m: bv32, j: nat): bv10
    requires j < 6
  {
    Power((5 - j) * r, Embed(Group(m, j)))
  }

  lemma EvalTerms(r: nat, m: bv32)
    ensures Eval(r, m) == Add(Add(Add(Add(Add(Term(r, m, 0), Term(r, m, 1)), Term(r, m, 2)), Term(r, m, 3)), Term(r, m, 4)),
                              Term(r, m, 5))
  {
    hide Embed, Group, Add;
    assert Power(0 * r, Embed(Group(m, 5))) == Embed(Group(m, 5));
    assert 1 * r == r;
  }

  lemma EvalLinear(r: nat, x: bv32, y: bv32)
    ensures Eval(r, Xor(x, y)) == Add(Eval(r, x), Eval(r, y))
  {
    hide Add, Xor, Eval, Term;
    EvalTerms(r, x);
    EvalTerms(r, y);
    EvalTerms(r, Xor(x, y));
    forall j: nat | j < 6 ensures Term(r, Xor(x, y), j) == Add(Term(r, x, j), Term(r, y, j)) {
      TermsAdd(r, x, y, j);
    }
    var a1, b1 := Add(Term(r, x, 0), Term(r, x, 1)), Add(Term(r, y, 0), Term(r, y, 1));
    var a2, b2 := Add(a1, Term(r, x, 2)), Add(b1, Term(r, y, 2));
    var a3, b3 := Add(a2, Term(r, x, 3)), Add(b2, Term(r, y, 3));
    var a4, b4 := Add(a3, Term(r, x, 4)), Add(b3, Term(r, y, 4));
    AddSwap(Term(r, x, 0), Term(r, y, 0), Term(r, x, 1), Term(r, y, 1));
    AddSwap(a1, b1, Term(r, x, 2), Term(r, y, 2));
    AddSwap(a2, b2, Term(r, x, 3), Term(r, y, 3));
    AddSwap(a3, b3, Term(r, x, 4), Term(r, y, 4));
    AddSwap(a4, b4, Term(r, x, 5), Term(r, y, 5));
  }

  lemma TermsAdd(r: nat, x: bv32, y: bv32, j: nat)
    requires j < 6
    ensures Term(r, Xor(x, y), j) == Add(Term(r, x, j), Term(r, y, j))
  {
    TermLinear((5 - j) * r, x, y, j);
  }

  lemma RootOkXor(r: nat, a: bv5, b: bv5)
    requires RootOk(r, a) && RootOk(r, b)
    ensures RootOk(r, Xor5(a, b))
  {
    hide Eval, Feedback, Power, Embed, Xor, Xor5, Add;
    FeedbackLinear(a, b);
    EvalLinear(r, Feedback(a), Feedback(b));
    EmbedLinear(a, b);
    PowerLinear(6 * r, Embed(a), Embed(b));
  }

  lemma RootOkZero(r: nat)
    ensures RootOk(r, 0)
  {
    hide Eval, Power, Add;
    EvalZero(r);
    PowerLinear(6 * r, 0, 0);
    EmbedZero(0);
    assert Feedback(0) == 0;
  }

  lemma EvalZero(r: nat)
    ensures Eval(r, 0) == 0
  {
    hide Eval, Term, Add;
    EvalTerms(r, 0);
    forall j: nat | j < 6 ensures Term(r, 0, j) == 0 {
      TermZero(r, 0, j);
    }
    AddLaws(0, 0, 0);
  }

  lemma TermZero(r: nat, m: bv32, j: nat)
    requires j < 6 && Group(m, j) == 0
    ensures Term(r, m, j) == 0
  {
    hide Power, Group;
    EmbedZero(0);
    PowerLinear((5 - j) * r, 0, 0);
  }

  lemma FiveBits(a: bv5)
    ensures a == Xor5(Xor5(Xor5(Xor5(a & 1, a & 2), a & 4), a & 8), a & 16)
  {}

  lemma OneBit(a: bv5)
    ensures (a & 1 == 0 || a & 1 == 1) && (a & 2 == 0 || a & 2 == 2) && (a & 4 == 0 || a & 4 == 4)
    ensures (a & 8 == 0 || a & 8 == 8) && (a & 16 == 0 || a & 16 == 16)
  {}

  lemma RootOkSum(r: nat, a: bv5, b: bv5, c: bv5, d: bv5, e: bv5)
    requires RootOk(r, a) && RootOk(r, b) && RootOk(r, c) && RootOk(r, d) && RootOk(r, e)
    ensures RootOk(r, Xor5(Xor5(Xor5(Xor5(a, b), c), d), e))
  {
    hide RootOk, Xor5;
    RootOkXor(r, a, b);
    RootOkXor(r, Xor5(a, b), c);
    RootOkXor(r, Xor5(Xor5(a, b), c), d);
    RootOkXor(r, Xor5(Xor5(Xor5(a, b), c), d), e);
  }

  lemma BasisRoots(r: nat)
    requires 24 <= r <= 26
    ensures RootOk(r, 0) && RootOk(r, 1) && RootOk(r, 2) && RootOk(r, 4) && RootOk(r, 8) && RootOk(r, 16)
  {
    hide RootOk, Feedback, Power, Product, Embed, Embedded, Dot;
    RootOkZero(r);
    if r == 24 {
      RootPowers24();
      Multiples();
      assert Powers(24) == C24();
      Root24Multiple1();
      BasisOk(24, 1);
      Root24Multiple2();
      BasisOk(24, 2);
      Root24Multiple4();
      BasisOk(24, 4);
      Root24Multiple8();
      BasisOk(24, 8);
      Root24Multiple16();
      BasisOk(24, 16);
    } else if r == 25 {
      RootPowers25();
      Multiples();
      assert Powers(25) == C25();
      Root25Multiple1();
      BasisOk(25, 1);
      Root25Multiple2();
      BasisOk(25, 2);
      Root25Multiple4();
      BasisOk(25, 4);
      Root25Multiple8();
      BasisOk(25, 8);
      Root25Multiple16();
      BasisOk(25, 16);
    } else {
      RootPowers26();
      Multiples();
      assert Powers(26) == C26();
      Root26Multiple1();
      BasisOk(26, 1);
      Root26Multiple2();
      BasisOk(26, 2);
      Root26Multiple4();
      BasisOk(26, 4);
      Root26Multiple8();
      BasisOk(26, 8);
      Root26Multiple16();
      BasisOk(26, 16);
    }
  }

  /** x^24, x^25 and x^26 are roots of the generator: k(x) takes the same value there as x^6. */
  lemma FeedbackAtRoot(r: nat, a: bv5)
    requires 24 <= r <= 26
    ensures RootOk(r, a)
  {
    hide RootOk, Xor5;
    BasisRoots(r);
    FiveBits(a);
    OneBit(a);
    RootOkSum(r, a & 1, a & 2, a & 4, a & 8, a & 16);
  }

  // ------------------------------------------------------------------ the checksum at the roots

  lemma ShiftedGroups(c: bv32)
    ensures Group(Shifted(c), 0) == Group(c, 1) && Group(Shifted(c), 1) == Group(c, 2) && Group(Shifted(c), 2) == Group(c, 3)
    ensures Group(Shifted(c), 3) == Group(c, 4) && Group(Shifted(c), 4) == Group(c, 5) && Group(Shifted(c), 5) == 0
    ensures Top(c) == Group(c, 0)
  {}

  lemma WideGroups(v: bv5)
    ensures Group(Wide(v), 0) == 0 && Group(Wide(v), 1) == 0 && Group(Wide(v), 2) == 0
    ensures Group(Wide(v), 3) == 0 && Group(Wide(v), 4) == 0 && Group(Wide(v), 5) == v
  {}

  lemma WideValue(r: nat, v: bv5)
    ensures Eval(r, Wide(v)) == Embed(v)
  {
    hide Eval, Add, Embed, Group, Wide, Power;
    EvalTerms(r, Wide(v));
    WideGroups(v);
    TermZero(r, Wide(v), 0);
    TermZero(r, Wide(v), 1);
    TermZero(r, Wide(v), 2);
    TermZero(r, Wide(v), 3);
    TermZero(r, Wide(v), 4);
    LastTerm(r, Wide(v));
    AddLaws(0, 0, 0);
    AddLaws(Embed(v), 0, 0);
  }

  lemma LastTerm(r: nat, m: bv32)
    ensures Term(r, m, 5) == Embed(Group(m, 5))
  {
    hide Embed, Group;
    assert 0 * r == 0;
  }

  /** A term of the shifted state is the next term, one power up. */
  lemma TermUp(r: nat, m: bv32, n: bv32, j: nat)
    requires j < 5 && Group(n, j) == Group(m, j + 1)
    ensures Term(r, n, j) == Power(r, Term(r, m, j + 1))
  {
    hide Power, Embed, Group;
    PowerAdd(r, (4 - j) * r, Embed(Group(n, j)));
    assert r + (4 - j) * r == (5 - j) * r;
  }

  lemma Rotate(a: bv10, b: bv10, c: bv10, d: bv10, e: bv10, f: bv10)
    ensures Add(Add(Add(Add(Add(Add(b, c), d), e), f), 0), a) == Add(Add(Add(Add(Add(a, b), c), d), e), f)
  {
    hide Add;
    var b2 := Add(b, c);
    var b3 := Add(b2, d);
    var b4 := Add(b3, e);
    AddLaws(a, b, c);
    AddLaws(a, b2, d);
    AddLaws(a, b3, e);
    AddLaws(a, b4, f);
    AddLaws(Add(b4, f), 0, a);
    AddLaws(a, Add(b4, f), 0);
  }

  /** The shifted state and what was shifted out make x^r times the state. */
  lemma ShiftedValue(r: nat, c: bv32)
    ensures Add(Eval(r, Shifted(c)), Power(6 * r, Embed(Top(c)))) == Power(r, Eval(r, c))
  {
    hide Eval, Add, Embed, Group, Shifted, Power, Top, Term;
    var s := Shifted(c);
    ShiftedGroups(c);
    EvalTerms(r, s);
    EvalTerms(r, c);
    TermUp(r, c, s, 0);
    TermUp(r, c, s, 1);
    TermUp(r, c, s, 2);
    TermUp(r, c, s, 3);
    TermUp(r, c, s, 4);
    TermZero(r, s, 5);
    FirstTerm(r, c);
    var t0, t1, t2, t3 := Term(r, c, 0), Term(r, c, 1), Term(r, c, 2), Term(r, c, 3);
    var t4, t5 := Term(r, c, 4), Term(r, c, 5);
    PowerLinear(r, t0, t1);
    PowerLinear(r, Add(t0, t1), t2);
    PowerLinear(r, Add(Add(t0, t1), t2), t3);
    PowerLinear(r, Add(Add(Add(t0, t1), t2), t3), t4);
    PowerLinear(r, Add(Add(Add(Add(t0, t1), t2), t3), t4), t5);
    Rotate(Power(r, t0), Power(r, t1), Power(r, t2), Power(r, t3), Power(r, t4), Power(r, t5));
  }

  lemma FirstTerm(r: nat, c: bv32)
    ensures Power(6 * r, Embed(Group(c, 0))) == Power(r, Term(r, c, 0))
  {
    hide Power, Embed, Group;
    PowerAdd(r, 5 * r, Embed(Group(c, 0)));
  }

  /** One round of the checksum loop, at a root. */
  lemma StepAtRoot(r: nat, c: bv32, v: bv5)
    requires 24 <= r <= 26
    ensures Eval(r, Step(c, v)) == Add(Power(r, Eval(r, c)), Embed(v))
  {
    hide Eval, Add, Embed, Shifted, Wide, Power, Top, Feedback, Xor;
    var s, f := Eval(r, Shifted(c)), Power(6 * r, Embed(Top(c)));
    EvalLinear(r, Xor(Shifted(c), Wide(v)), Feedback(Top(c)));
    EvalLinear(r, Shifted(c), Wide(v));
    WideValue(r, v);
    FeedbackAtRoot(r, Top(c));
    ShiftedValue(r, c);
    AddLaws(s, Embed(v), f);
    AddLaws(Embed(v), f, 0);
    AddLaws(s, f, Embed(v));
  }

  /** Reading symbols as the coefficients of a polynomial and evaluating it at x^r. */
  function Horner(r: nat, v: bv10, x: seq<bv5>): bv10
    decreases |x|
  {
    if x == [] then v else Horner(r, Add(Power(r, v), Embed(x[0])), x[1..])
  }

  /** Reduction modulo the generator does not change the value at its roots. */
  lemma {:induction false} PolyAtRoot(r: nat, c: bv32, x: seq<bv5>)
    requires 24 <= r <= 26
    ensures Eval(r, Poly(c, x)) == Horner(r, Eval(r, c), x)
    decreases |x|
  {
    hide Eval, Add, Embed, Power, Step;
    if x != [] {
      StepAtRoot(r, c, x[0]);
      PolyAtRoot(r, Step(c, x[0]), x[1..]);
    }
  }

  lemma {:induction false} HornerConcat(r: nat, v: bv10, x: seq<bv5>, y: seq<bv5>)
    ensures Horner(r, v, x + y) == Horner(r, Horner(r, v, x), y)
    decreases |x|
  {
    hide Add, Embed, Power;
    if x == [] {
      assert x + y == y;
    } else {
      HornerConcat(r, Add(Power(r, v), Embed(x[0])), x[1..], y);
      assert (x + y)[1..] == x[1..] + y;
    }
  }

  lemma {:induction false} HornerZeros(r: nat, v: bv10, x: seq<bv5>)
    requires AllZero(x)
    ensures Horner(r, v, x) == Power(r * |x|, v)
    decreases |x|
  {
    hide Add, Embed;
    if x == [] {
      assert r * 0 == 0;
    } else {
      EmbedZero(0);
      AddLaws(Power(r, v), 0, 0);
      HornerZeros(r, Power(r, v), x[1..]);
      PowerAdd(r * (|x| - 1), r, v);
      assert r * (|x| - 1) + r == r * |x|;
    }
  }

  /** A symbol and zeros after it. */
  lemma HornerBlock(r: nat, v: bv10, a: bv5, z: seq<bv5>)
    requires AllZero(z)
    ensures Horner(r, v, [a] + z) == Power(r * |z|, Add(Power(r, v), Embed(a)))
  {
    hide Add, Embed, Power;
    assert ([a] + z)[1..] == z;
    HornerZeros(r, Add(Power(r, v), Embed(a)), z);
  }

  // ------------------------------------------------------------------ the order of x

  lemma {:induction false} PowerTimes(k: nat, s: nat, v: bv10)
    requires Power(k, v) == v
    ensures Power(k * s, v) == v
  {
    hide Power;
    if s == 0 {
      assert k * s == 0;
      PowerNone(v);
    } else {
      PowerTimes(k, s - 1, v);
      PowerAdd(k, k * (s - 1), v);
      assert k + k * (s - 1) == k * s;
    }
  }

  lemma PowerNone(v: bv10)
    ensures Power(0, v) == v
  {}

  lemma Cycle(v: bv10)
    ensures Power(1023, v) == v
  {
    hide Power, Product;
    OrderPowers();
    PowerProduct(1023, v);
    ProductOne(v);
  }

  /** A multiple of k that leaves c modulo 1023. */
  lemma Reduce(k: nat, s: nat, p: nat, q: nat, c: nat, v: bv10)
    requires k * s == p * q + 1 && p * c == 1023 && Power(k, v) == v
    ensures Power(c, v) == v
  {
    hide Power;
    PowerTimes(k, s * c, v);
    assert k * (s * c) == (p * q + 1) * c by {
      assert k * (s * c) == k * s * c;
    }
    assert (p * q + 1) * c == 1023 * q + c by {
      assert p * q * c == p * c * q;
    }
    Cycle(Power(c, v));
    PowerTimes(1023, q, Power(c, v));
    PowerAdd(1023 * q, c, v);
  }

  lemma NoFixed33(v: bv10)
    ensures Product(176, v) == v ==> v == 0
  {}

  lemma NoFixed93(v: bv10)
    ensures Product(874, v) == v ==> v == 0
  {}

  lemma NoFixed341(v: bv10)
    ensures Product(54, v) == v ==> v == 0
  {}

  lemma Inverse11(r: nat) returns (s: nat)
    requires 0 < r < 11
    ensures r * s % 11 == 1
  {
    if r == 1 {
      s := 1;
    } else if r == 2 {
      s := 6;
    } else if r == 3 {
      s := 4;
    } else if r == 4 {
      s := 3;
    } else if r == 5 {
      s := 9;
    } else if r == 6 {
      s := 2;
    } else if r == 7 {
      s := 8;
    } else if r == 8 {
      s := 7;
    } else if r == 9 {
      s := 5;
    } else {
      s := 10;
    }
  }

  lemma Inverse31(r: nat) returns (s: nat)
    requires 0 < r < 31
    ensures r * s % 31 == 1
  {
    if r == 1 {
      s := 1;
    } else if r == 2 {
      s := 16;
    } else if r == 3 {
      s := 21;
    } else if r == 4 {
      s := 8;
    } else if r == 5 {
      s := 25;
    } else if r == 6 {
      s := 26;
    } else if r == 7 {
      s := 9;
    } else if r == 8 {
      s := 4;
    } else if r == 9 {
      s := 7;
    } else if r == 10 {
      s := 28;
    } else if r == 11 {
      s := 17;
    } else if r == 12 {
      s := 13;
    } else if r == 13 {
      s := 12;
    } else if r == 14 {
      s := 20;
    } else if r == 15 {
      s := 29;
    } else if r == 16 {
      s := 2;
    } else if r == 17 {
      s := 11;
    } else if r == 18 {
      s := 19;
    } else if r == 19 {
      s := 18;
    } else if r == 20 {
      s := 14;
    } else if r == 21 {
      s := 3;
    } else if r == 22 {
      s := 24;
    } else if r == 23 {
      s := 27;
    } else if r == 24 {
      s := 22;
    } else if r == 25 {
      s := 5;
    } else if r == 26 {
      s := 6;
    } else if r == 27 {
      s := 23;
    } else if r == 28 {
      s := 10;
    } else if r == 29 {
      s := 15;
    } else {
      s := 30;
    }
  }

  lemma Inverse(k: nat, p: nat, s: nat) returns (q: nat)
    requires p > 0 && k % p * s % p == 1
    ensures k * s == p * q + 1
  {
    var r := k % p;
    q := k / p * s + r * s / p;
    assert k == p * (k / p) + r;
    assert k * s == p * (k / p * s) + r * s by {
      assert (p * (k / p) + r) * s == p * (k / p) * s + r * s;
      assert p * (k / p) * s == p * (k / p * s);
    }
    assert r * s == p * (r * s / p) + 1;
    assert p * q == p * (k / p * s) + p * (r * s / p);
  }

  lemma Multiple1023(k: nat)
    requires k % 3 == 0 && k % 11 == 0 && k % 31 == 0 && 0 < k
    ensures k >= 1023
  {}

  /** The order of x is 1023: no smaller power of x fixes a nonzero element. */
  lemma NoFixed(k: nat, v: bv10)
    requires 0 < k < 1023 && Power(k, v) == v
    ensures v == 0
  {
    hide Power, Product;
    OrderPowers();
    if k % 3 != 0 {
      var q := Inverse(k, 3, k % 3);
      Reduce(k, k % 3, 3, q, 341, v);
      PowerProduct(341, v);
      NoFixed341(v);
    } else if k % 11 != 0 {
      var s := Inverse11(k % 11);
      var q := Inverse(k, 11, s);
      Reduce(k, s, 11, q, 93, v);
      PowerProduct(93, v);
      NoFixed93(v);
    } else if k % 31 != 0 {
      var s := Inverse31(k % 31);
      var q := Inverse(k, 31, s);
      Reduce(k, s, 31, q, 33, v);
      PowerProduct(33, v);
      NoFixed33(v);
    } else {
      Multiple1023(k);
    }
  }

  // ------------------------------------------------------------------ three terms

  /** (x^k + 1) v */
  function Diff(k: nat, v: bv10): bv10 {
    Add(Power(k, v), v)
  }

  lemma DiffZero(k: nat, v: bv10)
    requires 0 < k < 1023 && Diff(k, v) == 0
    ensures v == 0
  {
    hide Add, Power;
    AddLaws(Power(k, v), v, 0);
    NoFixed(k, v);
  }

  lemma DiffTwice(k: nat, v: bv10)
    ensures Diff(k, Diff(k, v)) == Diff(2 * k, v)
  {
    hide Add, Power;
    PowerLinear(k, Power(k, v), v);
    PowerAdd(k, k, v);
    Cancel(Power(2 * k, v), Power(k, v), v);
  }

  lemma Cancel(a: bv10, b: bv10, c: bv10)
    ensures Add(Add(a, b), Add(b, c)) == Add(a, c)
  {
    hide Add;
    AddLaws(a, b, Add(b, c));
    AddLaws(b, b, c);
    AddLaws(c, b, 0);
  }

  /** Two ways of writing the same sum. */
  lemma Balance(w: bv10, a: bv10, b: bv10, c: bv10, d: bv10)
    requires w == Add(a, b) && w == Add(c, d)
    ensures Add(c, a) == Add(d, b)
  {
    hide Add;
    AddSwap(c, d, a, b);
    AddLaws(Add(c, d), Add(a, b), 0);
    AddLaws(Add(c, a), Add(d, b), 0);
  }

  /** Three terms that vanish at three consecutive roots vanish. */
  lemma ThreeTerms(u: bv10, v: bv10, w: bv10, m: nat, n: nat)
    requires 0 < m && 0 < n && m + n < 1023
    requires w == Add(Power(24 * (m + n), u), Power(24 * n, v))
    requires w == Add(Power(25 * (m + n), u), Power(25 * n, v))
    requires w == Add(Power(26 * (m + n), u), Power(26 * n, v))
    ensures u == 0
  {
    hide Add, Power;
    var k := m + n;
    var a, b := Power(24 * k, u), Power(24 * n, v);
    PowerAdd(k, 24 * k, u);
    PowerAdd(n, 24 * n, v);
    PowerAdd(2 * k, 24 * k, u);
    PowerAdd(2 * n, 24 * n, v);
    Balance(w, a, b, Power(k, a), Power(n, b));
    Balance(w, a, b, Power(2 * k, a), Power(2 * n, b));
    DiffTwice(k, a);
    DiffTwice(n, b);
    var x := Diff(k, a);
    SameDiff(m, n, x);
    DiffZero(k, a);
    PowerLinear(24 * k, u, 0);
  }

  lemma SameDiff(m: nat, n: nat, x: bv10)
    requires 0 < m < 1023 && Diff(m + n, x) == Diff(n, x)
    ensures x == 0
  {
    hide Add, Power;
    var a, b := Power(m + n, x), Power(n, x);
    AddLaws(Add(a, x), Add(b, x), 0);
    AddSwap(a, x, b, x);
    AddLaws(x, x, 0);
    AddLaws(Add(a, b), 0, 0);
    AddLaws(a, b, 0);
    PowerAdd(n, m, x);
    PowerLinear(n, Power(m, x), x);
    AddLaws(Power(n, Power(m, x)), Power(n, x), 0);
    PowerLinear(n, Add(Power(m, x), x), x);
    AddLaws(Power(m, x), x, 0);
    NoFixed(m, x);
  }

  // ------------------------------------------------------------------ up to three errors

  lemma AtZero(r: nat, x: seq<bv5>)
    requires 24 <= r <= 26 && Poly(0, x) == 0
    ensures Horner(r, 0, x) == 0
  {
    hide Eval, Poly, Horner;
    PolyAtRoot(r, 0, x);
    EvalZero(r);
  }

  /** Three symbols with zeros between and after them. */
  lemma HornerThree(r: nat, a: bv5, y: seq<bv5>, b: bv5, z: seq<bv5>, c: bv5, e: seq<bv5>)
    requires AllZero(y) && AllZero(z) && AllZero(e)
    requires Horner(r, 0, [a] + y + ([b] + z) + ([c] + e)) == 0
    ensures var m, n := |y| + 1, |z| + 1;
            Embed(c) == Add(Power(r * (m + n), Embed(a)), Power(r * n, Embed(b)))
  {
    hide Horner, Add, Power, Embed, AllZero;
    var m, n := |y| + 1, |z| + 1;
    HornerConcat(r, 0, [a] + y + ([b] + z), [c] + e);
    HornerConcat(r, 0, [a] + y, [b] + z);
    HornerBlock(r, 0, a, y);
    PowerLinear(r, 0, 0);
    AddLaws(Embed(a), 0, 0);
    var t1 := Power(r * |y|, Embed(a));
    HornerBlock(r, t1, b, z);
    Up(r, |y|, Embed(a));
    var t2 := Power(r * |z|, Add(Power(r * m, Embed(a)), Embed(b)));
    HornerBlock(r, t2, c, e);
    Up(r, |z|, Add(Power(r * m, Embed(a)), Embed(b)));
    PowerLinear(r * |e|, Add(Power(r, t2), Embed(c)), 0);
    AddLaws(Power(r, t2), Embed(c), 0);
    PowerLinear(r * n, Power(r * m, Embed(a)), Embed(b));
    PowerAdd(r * n, r * m, Embed(a));
    assert r * n + r * m == r * (m + n);
  }

  lemma Up(r: nat, k: nat, v: bv10)
    ensures Power(r, Power(r * k, v)) == Power(r * (k + 1), v)
  {
    hide Power;
    PowerAdd(r, r * k, v);
    assert r + r * k == r * (k + 1);
  }

  /** Three symbols within 1023, the first of them nonzero, never lead back to the zero state. */
  lemma ThreeShow(a: bv5, y: seq<bv5>, b: bv5, z: seq<bv5>, c: bv5, e: seq<bv5>)
    requires AllZero(y) && AllZero(z) && AllZero(e) && a != 0 && |y| + |z| + 2 < 1023
    ensures Poly(0, [a] + y + ([b] + z) + ([c] + e)) != 0
  {
    hide Horner, Add, Power, Embed, AllZero, Poly;
    var x := [a] + y + ([b] + z) + ([c] + e);
    if Poly(0, x) == 0 {
      AtZero(24, x);
      AtZero(25, x);
      AtZero(26, x);
      HornerThree(24, a, y, b, z, c, e);
      HornerThree(25, a, y, b, z, c, e);
      HornerThree(26, a, y, b, z, c, e);
      ThreeTerms(Embed(a), Embed(b), Embed(c), |y| + 1, |z| + 1);
      EmbedZero(a);
    }
  }

  /** The nonzero symbols are among those at three positions. */
  ghost predicate Only(x: seq<bv5>, i: int, j: int, k: int) {
    forall p :: 0 <= p < |x| && x[p] != 0 ==> p == i || p == j || p == k
  }

  lemma ZerosBetween(x: seq<bv5>, i: nat, j: nat, k: nat, from: nat, to: nat)
    requires Only(x, i, j, k) && from <= to <= |x|
    requires !(from <= i < to) && !(from <= j < to) && !(from <= k < to)
    ensures AllZero(x[from..to])
  {}

  lemma Pieces(x: seq<bv5>, i: nat, j: nat, k: nat)
    requires i < j < k < |x|
    ensures x == x[..i] + ([x[i]] + x[i + 1..j] + ([x[j]] + x[j + 1..k]) + ([x[k]] + x[k + 1..]))
  {
    assert [x[i]] + x[i + 1..j] == x[i..j];
    assert [x[j]] + x[j + 1..k] == x[j..k];
    assert [x[k]] + x[k + 1..] == x[k..];
    assert x[i..j] + x[j..k] == x[i..k];
    assert x[i..k] + x[k..] == x[i..];
    assert x == x[..i] + x[i..];
  }

  lemma SpreadShows(x: seq<bv5>, i: nat, j: nat, k: nat)
    requires i < j < k < |x| && k - i < 1023 && Only(x, i, j, k) && x[i] != 0
    ensures Poly(0, x) != 0
  {
    hide Poly, Only, AllZero;
    var h, y, z, e := x[..i], x[i + 1..j], x[j + 1..k], x[k + 1..];
    var tail := [x[i]] + y + ([x[j]] + z) + ([x[k]] + e);
    Pieces(x, i, j, k);
    ZerosBetween(x, i, j, k, 0, i);
    ZerosBetween(x, i, j, k, i + 1, j);
    ZerosBetween(x, i, j, k, j + 1, k);
    ZerosBetween(x, i, j, k, k + 1, |x|);
    assert x[0..i] == h && x[k + 1..|x|] == e;
    PolyConcat(0, h, tail);
    PolyZeros(0, h);
    ThreeShow(x[i], y, x[j], z, x[k], e);
  }

  /** The same when the positions need not be different. */
  lemma FewShow(x: seq<bv5>, i: nat, j: nat, k: nat)
    requires i <= j <= k < |x| && k - i < 1023 && Only(x, i, j, k) && !AllZero(x)
    ensures Poly(0, x) != 0
  {
    hide Poly;
    var pad: seq<bv5> := [0, 0];
    var z := x + pad;
    PolyConcat(0, x, pad);
    PolyBound(0, x);
    PolyZeros(Poly(0, x), pad);
    var p :| 0 <= p < |x| && x[p] != 0;
    var f := if x[i] != 0 then i else if x[j] != 0 then j else k;
    assert x[f] != 0 && z[f] == x[f];
    Between(z, i, j, k, f);
  }

  /** From the first nonzero symbol on there is room for two more positions. */
  lemma Between(z: seq<bv5>, i: nat, j: nat, k: nat, f: nat)
    requires i <= j <= k && k + 2 < |z| && k - i < 1023 && Only(z, i, j, k)
    requires f == (if z[i] != 0 then i else if z[j] != 0 then j else k) && z[f] != 0
    ensures Poly(0, z) != 0
  {
    hide Poly;
    if f < j < k {
      SpreadShows(z, f, j, k);
    } else if f + 1 < k {
      SpreadShows(z, f, f + 1, k);
    } else {
      SpreadShows(z, f, f + 1, f + 2);
    }
  }

  /** Strings that differ in one, two or three symbols, the last less than 1023 after the first. */
  ghost predicate FewErrors(u: seq<bv5>, w: seq<bv5>, i: nat, j: nat, k: nat) {
    && |u| == |w| && u != w && i <= j <= k < |u| && k - i < 1023
    && forall p :: 0 <= p < |u| && u[p] != w[p] ==> p == i || p == j || p == k
  }

  lemma FewErrorsShow(c: bv32, u: seq<bv5>, w: seq<bv5>, i: nat, j: nat, k: nat)
    requires FewErrors(u, w, i, j, k)
    ensures Poly(c, u) != Poly(c, w)
  {
    hide Poly, Xor, Xor5;
    var x := XorAll(u, w);
    forall p | 0 <= p < |u|
      ensures x[p] == 0 <==> u[p] == w[p]
    {
      Xor5Self(u[p], w[p]);
    }
    FewShow(x, i, j, k);
    XorSelf(c, c);
    PolyLinear(c, c, u, w);
    XorSelf(Poly(c, u), Poly(c, w));
  }

  /** Up to three wrong symbols within a window of 1023 never verify under the same variant. */
  lemma ErrorsDetected(hrp: seq<bv8>, u: seq<bv5>, w: seq<bv5>, i: nat, j: nat, k: nat, e: Encoding)
    requires FewErrors(u, w, i, j, k) && Verify(hrp, u) == Some(e)
    ensures Verify(hrp, w) != Some(e)
  {
    hide Poly, Expand, Verify;
    VerifyIs(hrp, u, e);
    VerifyIs(hrp, w, e);
    PolyConcat(1, Expand(hrp), u);
    PolyConcat(1, Expand(hrp), w);
    FewErrorsShow(Poly(1, Expand(hrp)), u, w, i, j, k);
  }
}
