/** Why the Fire code can tell its errors apart: 0x1782f is (x^11 + 1)(x^5 + x^3 + x^2 + x + 1), and the syndrome of an
    error is determined by its residues modulo the two factors. */
module FireResidue {
  import opened Crc
  import opened FireCode

  // ----- the residue modulo x^11 + 1 -----

  datatype Cyc = Cyc(c10: bool, c9: bool, c8: bool, c7: bool, c6: bool, c5: bool,
                     c4: bool, c3: bool, c2: bool, c1: bool, c0: bool)

  function FoldC(w: Word): Cyc {
    Cyc(w.n2.b2, w.n2.b1, w.n2.b0, w.n1.b3, w.n1.b2, w.n1.b1, w.n1.b0 != w.n3.b3, w.n0.b3 != w.n3.b2,
        w.n0.b2 != w.n3.b1, w.n0.b1 != w.n3.b0, w.n0.b0 != w.n2.b3)
  }

  /** Times x, with a bit entering at x^16 = x^5. */
  function FeedC(c: Cyc, x: bool): Cyc {
    Cyc(c.c9, c.c8, c.c7, c.c6, c.c5, c.c4 != x, c.c3, c.c2, c.c1, c.c0, c.c10)
  }

  function Rot(c: Cyc): Cyc {
    FeedC(c, false)
  }

  lemma FoldCStep(w: Word, x: bool)
    ensures FoldC(Step(w, x, FirePoly)) == FeedC(FoldC(w), x)
  {
    hide Xor;
    var s, p := Shift(w), Sel(w.n3.b3 != x, FirePoly);
    FoldCXor(s, p);
  }

  function XorC(a: Cyc, b: Cyc): Cyc {
    Cyc(a.c10 != b.c10, a.c9 != b.c9, a.c8 != b.c8, a.c7 != b.c7, a.c6 != b.c6, a.c5 != b.c5, a.c4 != b.c4,
        a.c3 != b.c3, a.c2 != b.c2, a.c1 != b.c1, a.c0 != b.c0)
  }

  lemma FoldCXor(v: Word, w: Word)
    ensures FoldC(Xor(v, w)) == XorC(FoldC(v), FoldC(w))
  {
  }

  /** The byte b, entered into the register, is b times x^16. */
  function InsC(b: Byte): Cyc {
    Cyc(b.hi.b1, b.hi.b0, b.lo.b3, b.lo.b2, b.lo.b1, b.lo.b0, false, false, false, b.hi.b3, b.hi.b2)
  }

  function Feed4C(c: Cyc, n: Nibble): Cyc {
    FeedC(FeedC(FeedC(FeedC(c, n.b3), n.b2), n.b1), n.b0)
  }

  lemma FoldCStep4(w: Word, n: Nibble)
    ensures FoldC(Step4(w, n, FirePoly)) == Feed4C(FoldC(w), n)
  {
    hide Step, FoldC, FeedC;
    var w1 := Step(w, n.b3, FirePoly);
    var w2 := Step(w1, n.b2, FirePoly);
    var w3 := Step(w2, n.b1, FirePoly);
    FoldCStep(w, n.b3);
    FoldCStep(w1, n.b2);
    FoldCStep(w2, n.b1);
    FoldCStep(w3, n.b0);
  }

  function Entered(b: Byte): Word {
    StepByte(Zero, b, FirePoly)
  }

  lemma FoldCByte(b: Byte)
    ensures FoldC(Entered(b)) == InsC(b)
  {
    hide Step4, StepByte;
    StepByteIs(Zero, b, FirePoly);
    var w := Step4(Zero, b.hi, FirePoly);
    FoldCStep4(Zero, b.hi);
    FoldCStep4(w, b.lo);
  }

  // ----- the residue modulo x^5 + x^3 + x^2 + x + 1 -----

  datatype Quint = Quint(q4: bool, q3: bool, q2: bool, q1: bool, q0: bool)

  const QZero := Quint(false, false, false, false, false)

  function TimesX(q: Quint): Quint {
    Quint(q.q3, q.q2 != q.q4, q.q1 != q.q4, q.q0 != q.q4, q.q4)
  }

  function XorQ(a: Quint, b: Quint): Quint {
    Quint(a.q4 != b.q4, a.q3 != b.q3, a.q2 != b.q2, a.q1 != b.q1, a.q0 != b.q0)
  }

  function Part0(n: Nibble): Quint {
    Quint(false, n.b3, n.b2, n.b1, n.b0)
  }

  function Part1(n: Nibble): Quint {
    Quint((n.b3 != n.b2) != n.b0, n.b2 != n.b1, n.b2 != n.b1, (n.b3 != n.b2) != n.b1, n.b3 != n.b1)
  }

  function Part2(n: Nibble): Quint {
    Quint(n.b3 != n.b1, n.b2 != n.b0, n.b3, (n.b3 != n.b2) != n.b1, n.b2 != n.b0)
  }

  function Part3(n: Nibble): Quint {
    Quint(n.b3, n.b3 != n.b2, n.b2 != n.b1, n.b1 != n.b0, n.b0)
  }

  function FoldQ(w: Word): Quint {
    XorQ(XorQ(Part3(w.n3), Part2(w.n2)), XorQ(Part1(w.n1), Part0(w.n0)))
  }

  lemma PartXor(a: Nibble, b: Nibble)
    ensures Part3(Xor4(a, b)) == XorQ(Part3(a), Part3(b))
    ensures Part2(Xor4(a, b)) == XorQ(Part2(a), Part2(b))
    ensures Part1(Xor4(a, b)) == XorQ(Part1(a), Part1(b))
    ensures Part0(Xor4(a, b)) == XorQ(Part0(a), Part0(b))
  {
  }

  lemma XorQSwap(a: Quint, b: Quint, c: Quint, d: Quint)
    ensures XorQ(XorQ(a, b), XorQ(c, d)) == XorQ(XorQ(a, c), XorQ(b, d))
  {
  }

  lemma FoldQXor(v: Word, w: Word)
    ensures FoldQ(Xor(v, w)) == XorQ(FoldQ(v), FoldQ(w))
  {
    hide Part3, Part2, Part1, Part0, XorQ, Xor4;
    PartXor(v.n3, w.n3);
    PartXor(v.n2, w.n2);
    PartXor(v.n1, w.n1);
    PartXor(v.n0, w.n0);
    XorQSwap(Part3(v.n3), Part3(w.n3), Part2(v.n2), Part2(w.n2));
    XorQSwap(Part1(v.n1), Part1(w.n1), Part0(v.n0), Part0(w.n0));
    XorQSwap(XorQ(Part3(v.n3), Part2(v.n2)), XorQ(Part3(w.n3), Part2(w.n2)),
             XorQ(Part1(v.n1), Part0(v.n0)), XorQ(Part1(w.n1), Part0(w.n0)));
  }

  /** The bit that leaves the nibble of x^0 .. x^3. */
  function Top0(n: Nibble): Quint {
    if n.b3 then Quint(true, false, false, false, false) else QZero
  }

  /** The bit that leaves the nibble of x^4 .. x^7. */
  function Top1(n: Nibble): Quint {
    if n.b3 then Quint(false, true, false, false, true) else QZero
  }

  /** The bit that leaves the nibble of x^8 .. x^11. */
  function Top2(n: Nibble): Quint {
    if n.b3 then Quint(false, false, false, true, true) else QZero
  }

  /** The bit that leaves the nibble of x^12 .. x^15. */
  function Top3(n: Nibble): Quint {
    if n.b3 then Quint(true, true, true, true, true) else QZero
  }

  lemma Part3Shift(n: Nibble, m: Nibble)
    ensures Part3(Shift4(n, m.b3)) == XorQ(XorQ(TimesX(Part3(n)), Top3(n)), Top2(m))
  {
  }

  lemma Part2Shift(n: Nibble, m: Nibble)
    ensures Part2(Shift4(n, m.b3)) == XorQ(XorQ(TimesX(Part2(n)), Top2(n)), Top1(m))
  {
  }

  lemma Part1Shift(n: Nibble, m: Nibble)
    ensures Part1(Shift4(n, m.b3)) == XorQ(XorQ(TimesX(Part1(n)), Top1(n)), Top0(m))
  {
  }

  lemma Part0Shift(n: Nibble)
    ensures Part0(Shift4(n, false)) == XorQ(TimesX(Part0(n)), Top0(n))
  {
  }

  lemma TimesXXor(a: Quint, b: Quint)
    ensures TimesX(XorQ(a, b)) == XorQ(TimesX(a), TimesX(b))
  {
  }

  lemma Telescope(a: Quint, b: Quint, c: Quint, d: Quint, t: Quint, u: Quint, v: Quint, w: Quint)
    ensures XorQ(XorQ(XorQ(XorQ(XorQ(a, t), u), XorQ(XorQ(b, u), v)), XorQ(XorQ(XorQ(c, v), w), XorQ(d, w))), t)
            == XorQ(XorQ(a, b), XorQ(c, d))
  {
  }

  /** Times x, with a bit entering at x^16 = x^4 + x^3 + x^2 + x + 1. */
  function FeedQ(q: Quint, x: bool): Quint {
    XorQ(TimesX(q), InBit(x))
  }

  function InBit(x: bool): Quint {
    if x then Quint(true, true, true, true, true) else QZero
  }

  lemma FoldQSel(n: Nibble, x: bool)
    ensures FoldQ(Sel(n.b3 != x, FirePoly)) == XorQ(Top3(n), InBit(x))
  {
  }

  lemma XorQAssoc(a: Quint, b: Quint, c: Quint)
    ensures XorQ(a, XorQ(b, c)) == XorQ(XorQ(a, b), c)
  {
  }

  lemma FoldQStep(w: Word, x: bool)
    ensures FoldQ(Step(w, x, FirePoly)) == FeedQ(FoldQ(w), x)
  {
    hide Xor, XorQ, Part3, Part2, Part1, Part0, Top3, Top2, Top1, Top0, TimesX, Shift4, Sel, InBit;
    FoldQXor(Shift(w), Sel(w.n3.b3 != x, FirePoly));
    FoldQSel(w.n3, x);
    XorQAssoc(FoldQ(Shift(w)), Top3(w.n3), InBit(x));
    Part3Shift(w.n3, w.n2);
    Part2Shift(w.n2, w.n1);
    Part1Shift(w.n1, w.n0);
    Part0Shift(w.n0);
    var a, b, c, d := Part3(w.n3), Part2(w.n2), Part1(w.n1), Part0(w.n0);
    Telescope(TimesX(a), TimesX(b), TimesX(c), TimesX(d), Top3(w.n3), Top2(w.n2), Top1(w.n1), Top0(w.n0));
    TimesXXor(a, b);
    TimesXXor(c, d);
    TimesXXor(XorQ(a, b), XorQ(c, d));
  }

  function Feed4Q(q: Quint, n: Nibble): Quint {
    FeedQ(FeedQ(FeedQ(FeedQ(q, n.b3), n.b2), n.b1), n.b0)
  }

  lemma FoldQStep4(w: Word, n: Nibble)
    ensures FoldQ(Step4(w, n, FirePoly)) == Feed4Q(FoldQ(w), n)
  {
    hide Step, FoldQ, FeedQ;
    var w1 := Step(w, n.b3, FirePoly);
    var w2 := Step(w1, n.b2, FirePoly);
    var w3 := Step(w2, n.b1, FirePoly);
    FoldQStep(w, n.b3);
    FoldQStep(w1, n.b2);
    FoldQStep(w2, n.b1);
    FoldQStep(w3, n.b0);
  }

  lemma FoldQZero()
    ensures FoldQ(Zero) == QZero
  {
  }

  lemma FoldQByte(b: Byte)
    ensures FoldQ(Entered(b)) == Feed4Q(Feed4Q(QZero, b.hi), b.lo)
  {
    hide Step4, FoldQ, Feed4Q, StepByte;
    StepByteIs(Zero, b, FirePoly);
    FoldQZero();
    FoldQStep4(Zero, b.hi);
    FoldQStep4(Step4(Zero, b.hi, FirePoly), b.lo);
  }

  // ----- steps without input -----

  lemma StepZeroInjective(v: Word, w: Word)
    requires Step(v, false, FirePoly) == Step(w, false, FirePoly)
    ensures v == w
  {
  }

  lemma StepZeroZero()
    ensures Step(Zero, false, FirePoly) == Zero
  {
  }

  lemma {:induction false} IterateInjective(v: Word, w: Word, n: nat)
    requires Iterate(v, n) == Iterate(w, n)
    ensures v == w
  {
    hide Step;
    if n > 0 {
      StepZeroInjective(Iterate(v, n - 1), Iterate(w, n - 1));
      IterateInjective(v, w, n - 1);
    }
  }

  lemma {:induction false} IterateAdd(w: Word, m: nat, n: nat)
    ensures Iterate(Iterate(w, m), n) == Iterate(w, m + n)
  {
    hide Step;
    if n > 0 {
      IterateAdd(w, m, n - 1);
    }
  }

  lemma IterateTwo(w: Word, n: nat)
    ensures Iterate(w, n + 2) == Step(Step(Iterate(w, n), false, FirePoly), false, FirePoly)
  {
    hide Step;
    assert Iterate(w, n + 1) == Step(Iterate(w, n), false, FirePoly);
  }

  lemma ShiftsTwo(b: Byte)
    ensures ShiftRight(b, 2) == Byte(Nibble(false, false, b.hi.b3, b.hi.b2), Nibble(b.hi.b1, b.hi.b0, b.lo.b3, b.lo.b2))
    ensures ShiftLeft(b, 2) == Byte(Nibble(b.hi.b1, b.hi.b0, b.lo.b3, b.lo.b2), Nibble(b.lo.b1, b.lo.b0, false, false))
  {
    assert ShiftRight(b, 1) == ShiftRightOne(b);
    assert ShiftLeft(b, 1) == ShiftLeftOne(b);
  }

  lemma ShiftsFour(b: Byte)
    ensures ShiftRight(b, 4) == Byte(Zero4, b.hi)
    ensures ShiftLeft(b, 4) == Byte(b.lo, Zero4)
  {
    hide ShiftLeftOne, ShiftRightOne;
    assert ShiftRight(b, 4) == ShiftRight(ShiftRight(b, 2), 2) by {
      assert ShiftRight(b, 3) == ShiftRightOne(ShiftRight(b, 2));
      assert ShiftRight(ShiftRight(b, 2), 1) == ShiftRightOne(ShiftRight(b, 2));
    }
    assert ShiftLeft(b, 4) == ShiftLeft(ShiftLeft(b, 2), 2) by {
      assert ShiftLeft(b, 3) == ShiftLeftOne(ShiftLeft(b, 2));
      assert ShiftLeft(ShiftLeft(b, 2), 1) == ShiftLeftOne(ShiftLeft(b, 2));
    }
    ShiftsTwo(b);
    ShiftsTwo(ShiftRight(b, 2));
    ShiftsTwo(ShiftLeft(b, 2));
  }

  lemma ShiftsSix(b: Byte, n: nat)
    requires n == 6
    ensures ShiftRight(b, n) == Byte(Zero4, Nibble(false, false, b.hi.b3, b.hi.b2))
    ensures ShiftLeft(b, n) == Byte(Nibble(b.lo.b1, b.lo.b0, false, false), Zero4)
  {
    hide ShiftLeftOne, ShiftRightOne;
    assert ShiftRight(b, 6) == ShiftRight(ShiftRight(b, 4), 2) by {
      assert ShiftRight(b, 5) == ShiftRightOne(ShiftRight(b, 4));
      assert ShiftRight(ShiftRight(b, 4), 1) == ShiftRightOne(ShiftRight(b, 4));
    }
    assert ShiftLeft(b, 6) == ShiftLeft(ShiftLeft(b, 4), 2) by {
      assert ShiftLeft(b, 5) == ShiftLeftOne(ShiftLeft(b, 4));
      assert ShiftLeft(ShiftLeft(b, 4), 1) == ShiftLeftOne(ShiftLeft(b, 4));
    }
    ShiftsFour(b);
    ShiftsTwo(ShiftRight(b, 4));
    ShiftsTwo(ShiftLeft(b, 4));
  }

  /** Two bytes that hold b, moved down by k bits: b enters, and 8 - k steps without input follow. */
  lemma TwoBytes(b: Byte, k: nat)
    requires k in {0, 2, 4, 6}
    ensures StepByte(Entered(ShiftRight(b, k)), ShiftLeft(b, 8 - k), FirePoly) == Iterate(Entered(b), 8 - k)
  {
    hide Step, StepByte, Entered, ShiftRight, ShiftLeft;
    if k == 0 {
      ShiftLeftEight(b);
      ShiftRightZero(b);
      EightSteps(Entered(b));
    } else if k == 2 {
      TwoBytes2(b);
    } else if k == 4 {
      TwoBytes4(b);
    } else {
      TwoBytes6(b);
    }
  }

  lemma ShiftRightZero(b: Byte)
    ensures ShiftRight(b, 0) == b
  {
  }

  lemma TwoBytes2(b: Byte)
    ensures StepByte(Entered(ShiftRight(b, 2)), ShiftLeft(b, 6), FirePoly) == Iterate(Entered(b), 6)
  {
    hide Step, ShiftLeft, ShiftRight, Iterate, StepByte;
    StepByteIs(Zero, b, FirePoly);
    StepByteIs(Zero, ShiftRight(b, 2), FirePoly);
    StepByteIs(Entered(ShiftRight(b, 2)), ShiftLeft(b, 6), FirePoly);
    StepZeroZero();
    ShiftsTwo(b);
    ShiftsSix(b, 6);
    var e := Entered(b);
    IterateNone(e);
    IterateTwo(e, 0);
    IterateTwo(e, 2);
    IterateTwo(e, 4);
  }

  lemma TwoBytes4(b: Byte)
    ensures StepByte(Entered(ShiftRight(b, 4)), ShiftLeft(b, 4), FirePoly) == Iterate(Entered(b), 4)
  {
    hide Step, ShiftLeft, ShiftRight, Iterate, StepByte;
    StepByteIs(Zero, b, FirePoly);
    StepByteIs(Zero, ShiftRight(b, 4), FirePoly);
    StepByteIs(Entered(ShiftRight(b, 4)), ShiftLeft(b, 4), FirePoly);
    StepZeroZero();
    ShiftsFour(b);
    var e := Entered(b);
    IterateNone(e);
    IterateTwo(e, 0);
    IterateTwo(e, 2);
  }

  lemma TwoBytes6(b: Byte)
    ensures StepByte(Entered(ShiftRight(b, 6)), ShiftLeft(b, 2), FirePoly) == Iterate(Entered(b), 2)
  {
    hide Step, ShiftLeft, ShiftRight, Iterate, StepByte;
    StepByteIs(Zero, b, FirePoly);
    StepByteIs(Zero, ShiftRight(b, 6), FirePoly);
    StepByteIs(Entered(ShiftRight(b, 6)), ShiftLeft(b, 2), FirePoly);
    StepZeroZero();
    ShiftsSix(b, 6);
    ShiftsTwo(b);
    var e := Entered(b);
    IterateNone(e);
    IterateTwo(e, 0);
  }

  lemma IterateNone(w: Word)
    ensures Iterate(w, 0) == w
  {
  }
}
