/** The errors of the Fire table are told apart: two bursts of at most six bits that do not straddle the end of the code
    word have different syndromes, so that correction undoes them. */
module FireBursts {
  import opened Crc
  import opened CrcTable
  import opened FireCode
  import opened FireResidue

  // ----- bursts -----

  /** At most six bits wide, and not a multiple of x^5 + x^3 + x^2 + x + 1. */
  predicate Burst(b: Byte) {
    && (b.hi.b3 ==> !b.lo.b1 && !b.lo.b0) && (b.hi.b2 ==> !b.lo.b0)
    && b != Byte(N2, NF) && b != Byte(N5, NE) && b != Byte(NB, NC)
  }

  predicate Top(b: Byte) {
    b.hi.b3
  }

  /** b can move up by u bits without loss. */
  predicate Climbs(b: Byte, u: nat) {
    u == 0 || (Climbs(b, u - 1) && !Top(ShiftLeft(b, u - 1)))
  }

  lemma BurstClimbs(b: Byte)
    requires Burst(b) && !Top(b) && b != ZeroByte
    ensures Burst(ShiftLeftOne(b)) && ShiftLeftOne(b) != ZeroByte
  {
  }

  lemma EnteredClimbs(b: Byte)
    requires !Top(b)
    ensures Entered(ShiftLeftOne(b)) == Step(Entered(b), false, FirePoly)
  {
    hide Step, StepByte;
    StepByteIs(Zero, b, FirePoly);
    StepByteIs(Zero, ShiftLeftOne(b), FirePoly);
    StepZeroZero();
  }

  lemma {:induction false} Climbed(b: Byte, u: nat)
    requires Burst(b) && b != ZeroByte && Climbs(b, u)
    ensures var c := ShiftLeft(b, u);
            Burst(c) && c != ZeroByte && Entered(c) == Iterate(Entered(b), u)
  {
    hide Burst, Entered, ShiftLeftOne, Top, Step;
    if u > 0 {
      Climbed(b, u - 1);
      var c := ShiftLeft(b, u - 1);
      BurstClimbs(c);
      EnteredClimbs(c);
    }
  }

  /** Every burst can be moved up until its first bit is on top. */
  lemma {:induction false} Peak(b: Byte, from: nat) returns (u: nat)
    requires Burst(b) && b != ZeroByte && from <= 8 && Climbs(b, from)
    ensures u < 8 && Climbs(b, u) && Top(ShiftLeft(b, u))
    decreases 8 - from
  {
    hide Burst, ShiftLeft, Top;
    if Top(ShiftLeft(b, from)) {
      u := from;
    }
    Climbed(b, from);
    ShiftLeftEight(b);
    if from < 8 && !Top(ShiftLeft(b, from)) {
      u := Peak(b, from + 1);
    }
  }

  // ----- residues of a burst on its way through the register -----

  function RotN(c: Cyc, n: nat): Cyc {
    if n == 0 then c else Rot(RotN(c, n - 1))
  }

  lemma {:induction false} FoldCIterate(w: Word, n: nat)
    ensures FoldC(Iterate(w, n)) == RotN(FoldC(w), n)
  {
    hide FoldC, Step, FeedC;
    if n > 0 {
      FoldCIterate(w, n - 1);
      FoldCStep(Iterate(w, n - 1), false);
    }
  }

  lemma RotEleven(c: Cyc, n: nat)
    ensures RotN(c, n + 11) == RotN(c, n)
  {
    hide RotN;
    RotFive(c, n);
    RotFive(c, n + 5);
    RotNext(c, n + 10);
  }

  lemma RotNext(c: Cyc, n: nat)
    ensures RotN(c, n + 1) == Rot(RotN(c, n))
  {
  }

  function Rot5(c: Cyc): Cyc {
    Cyc(c.c5, c.c4, c.c3, c.c2, c.c1, c.c0, c.c10, c.c9, c.c8, c.c7, c.c6)
  }

  lemma FiveRotations(c: Cyc)
    ensures Rot(Rot(Rot(Rot(Rot(c))))) == Rot5(c)
  {
  }

  lemma RotFive(c: Cyc, n: nat)
    ensures RotN(c, n + 5) == Rot5(RotN(c, n))
  {
    hide Rot, RotN;
    FiveRotations(RotN(c, n));
    RotNext(c, n);
    RotNext(c, n + 1);
    RotNext(c, n + 2);
    RotNext(c, n + 3);
    RotNext(c, n + 4);
  }

  lemma {:induction false} RotModulo(c: Cyc, n: nat)
    ensures RotN(c, n) == RotN(c, n % 11)
  {
    hide Rot, RotN;
    if n >= 11 {
      RotModulo(c, n - 11);
      RotEleven(c, n - 11);
      assert (n - 11) % 11 == n % 11;
    }
  }

  /** A burst with its first bit on top is no rotation of another one. */
  lemma RotDistinct(b: Byte, d: Byte, r: nat)
    requires Burst(b) && Top(b) && Burst(d) && Top(d) && r < 11
    requires RotN(InsC(b), r) == InsC(d)
    ensures r == 0 && b == d
  {
    hide RotN;
    var c := InsC(b);
    RotStart(c);
    if r < 5 {
      RotNext(c, 0);
      RotNext(c, 1);
      RotNext(c, 2);
      RotNext(c, 3);
    } else {
      RotFive(c, 0);
      RotNext(c, 5);
      RotNext(c, 6);
      RotNext(c, 7);
      RotNext(c, 8);
      RotNext(c, 9);
    }
  }

  lemma RotStart(c: Cyc)
    ensures RotN(c, 0) == c
  {
  }

  function XN(q: Quint, n: nat): Quint {
    if n == 0 then q else TimesX(XN(q, n - 1))
  }

  lemma {:induction false} FoldQIterate(w: Word, n: nat)
    ensures FoldQ(Iterate(w, n)) == XN(FoldQ(w), n)
  {
    hide FoldQ, Step, TimesX, XorQ;
    if n > 0 {
      FoldQIterate(w, n - 1);
      FoldQStep(Iterate(w, n - 1), false);
      XorQZero(TimesX(FoldQ(Iterate(w, n - 1))));
    }
  }

  lemma XorQZero(q: Quint)
    ensures XorQ(q, InBit(false)) == q
  {
  }

  function X11(q: Quint): Quint {
    Quint(q.q0 != q.q4, q.q3 != q.q4, (q.q0 != q.q2) != q.q3, (q.q0 != q.q1) != q.q2, q.q1)
  }

  lemma XNext(q: Quint, n: nat)
    ensures XN(q, n + 1) == TimesX(XN(q, n))
  {
  }

  lemma XFive(q: Quint, n: nat)
    ensures XN(q, n + 5) == TimesX(TimesX(TimesX(TimesX(TimesX(XN(q, n))))))
  {
    hide TimesX, XN;
    XNext(q, n);
    XNext(q, n + 1);
    XNext(q, n + 2);
    XNext(q, n + 3);
    XNext(q, n + 4);
  }

  lemma XEleven(q: Quint, n: nat)
    ensures XN(q, n + 11) == X11(XN(q, n))
  {
    hide XN;
    XFive(q, n);
    XFive(q, n + 5);
    XNext(q, n + 10);
  }

  /** x^11, x^22, .. x^77 are different from 1. */
  lemma NoShortPeriod(q: Quint, m: nat)
    requires 0 < m < 8 && XN(q, 11 * m) == q
    ensures q == QZero
  {
    hide XN;
    XStart(q);
    XEleven(q, 0);
    XEleven(q, 11);
    XEleven(q, 22);
    XEleven(q, 33);
    XEleven(q, 44);
    XEleven(q, 55);
    XEleven(q, 66);
  }

  lemma XStart(q: Quint)
    ensures XN(q, 0) == q
  {
  }

  lemma PeakResidue(b: Byte)
    requires Burst(b) && Top(b)
    ensures FoldQ(Entered(b)) != QZero
  {
    hide FoldQ, StepByte;
    FoldQByte(b);
  }

  /** Two bursts with their first bits on top that meet in the register are the same and started together. */
  lemma PeaksDistinct(b: Byte, d: Byte, n: nat)
    requires Burst(b) && Top(b) && Burst(d) && Top(d) && n < 88
    requires Iterate(Entered(b), n) == Entered(d)
    ensures n == 0 && b == d
  {
    hide *;
    FoldCIterate(Entered(b), n);
    FoldCByte(b);
    FoldCByte(d);
    RotModulo(InsC(b), n);
    RotDistinct(b, d, n % 11);
    FoldQIterate(Entered(b), n);
    PeakResidue(b);
    if n > 0 {
      assert n == 11 * (n / 11);
      NoShortPeriod(FoldQ(Entered(b)), n / 11);
    }
  }

  // ----- slots -----

  /** The slots of the plan: inside the header, at an even bit offset, holding a burst. */
  predicate Fits(s: Slot) {
    s.bit <= 80 && s.bit % 2 == 0 && Burst(s.pattern) && s.pattern != ZeroByte
  }

  /** The burst reaches from x[1], the end of the code word, into x[2], its beginning. */
  predicate Straddles(s: Slot) {
    8 < s.bit < 16
  }

  /** The offset of a burst from the beginning of the code word. */
  function CodeBit(s: Slot): nat {
    if s.bit < 16 then s.bit + 72 else s.bit - 16
  }

  lemma {:induction false} ZerosFirst(d: seq<Byte>, n: nat)
    requires n <= |d| && forall i :: 0 <= i < n ==> d[i] == ZeroByte
    ensures Divide(Zero, d[..n], FirePoly) == Zero
  {
    hide StepByte;
    if n > 0 {
      ZerosFirst(d, n - 1);
      assert d[..n][..n - 1] == d[..n - 1];
      EnteredZero();
    }
  }

  lemma EnteredZero()
    ensures StepByte(Zero, ZeroByte, FirePoly) == Zero
  {
    hide Step, StepByte;
    StepByteIs(Zero, ZeroByte, FirePoly);
    StepZeroZero();
  }

  lemma {:induction false} ZerosLast(d: seq<Byte>, m: nat, n: nat)
    requires m <= n <= |d| && forall i :: m <= i < n ==> d[i] == ZeroByte
    ensures Divide(Zero, d[..n], FirePoly) == Iterate(Divide(Zero, d[..m], FirePoly), 8 * (n - m))
  {
    hide StepByte, Step;
    if n > m {
      ZerosLast(d, m, n - 1);
      assert d[..n][..n - 1] == d[..n - 1];
      EightSteps(Divide(Zero, d[..n - 1], FirePoly));
      IterateAdd(Divide(Zero, d[..m], FirePoly), 8 * (n - 1 - m), 8);
    }
  }

  lemma DivideNext(d: seq<Byte>, n: nat)
    requires n < |d|
    ensures Divide(Zero, d[..n + 1], FirePoly) == StepByte(Divide(Zero, d[..n], FirePoly), d[n], FirePoly)
  {
    hide StepByte;
    assert d[..n + 1][..n] == d[..n];
  }

  /** The bytes of a burst in code order. */
  lemma CodeBytes(s: Slot, j: nat, k: nat)
    requires s.bit <= 80 && s.bit % 2 == 0 && !Straddles(s) && j == CodeBit(s) / 8 && k == s.bit % 8
    ensures CodeBit(s) == 8 * j + k && k in {0, 2, 4, 6} && j <= 10 && (j == 10 ==> k == 0)
    ensures var d := CodeOrder(ErrorAt(s));
            && d[j] == ShiftRight(s.pattern, k) && (j < 10 ==> d[j + 1] == ShiftLeft(s.pattern, 8 - k))
            && forall i :: 0 <= i < 11 && i != j && i != j + 1 ==> d[i] == ZeroByte
  {
    hide ShiftLeft, ShiftRight;
    ShiftLeftEight(s.pattern);
  }

  lemma FitsOffset(s: Slot)
    requires Fits(s)
    ensures s.bit <= 80 && s.bit % 2 == 0
  {
  }

  /** The syndrome of a burst that does not straddle: it enters, and the rest of the code word is zero. */
  lemma SyndromeOf(s: Slot)
    requires Fits(s) && !Straddles(s)
    ensures CodeBit(s) <= 80
    ensures Syndrome(ErrorAt(s)) == Iterate(Entered(s.pattern), 80 - CodeBit(s))
  {
    hide *;
    var b, k, j := s.pattern, s.bit % 8, CodeBit(s) / 8;
    FitsOffset(s);
    CodeBytes(s, j, k);
    var d := CodeOrder(ErrorAt(s));
    assert d[..11] == d;
    SyndromeIs(ErrorAt(s));
    EnteredIs(ShiftRight(b, k));
    ShiftRightZero(b);
    ZerosFirst(d, j);
    DivideNext(d, j);
    if j == 10 {
      IterateNone(Entered(b));
    } else {
      DivideNext(d, j + 1);
      TwoBytes(b, k);
      ZerosLast(d, j + 2, 11);
      IterateAdd(Entered(b), 8 - k, 8 * (9 - j));
    }
  }

  lemma SyndromeIs(x: seq<Byte>)
    requires |x| >= 11
    ensures Syndrome(x) == Divide(Zero, CodeOrder(x), FirePoly)
  {
    hide Divide;
  }

  lemma EnteredIs(b: Byte)
    ensures Entered(b) == StepByte(Zero, b, FirePoly)
  {
    hide StepByte;
  }

  lemma RightThenLeft(b: Byte)
    requires !Top(b)
    ensures ShiftRightOne(ShiftLeftOne(b)) == b
  {
  }

  lemma {:induction false} ShiftRightInner(b: Byte, n: nat)
    ensures ShiftRight(b, n + 1) == ShiftRight(ShiftRightOne(b), n)
  {
    hide ShiftRightOne;
    if n > 0 {
      ShiftRightInner(b, n - 1);
    }
  }

  lemma {:induction false} ShiftLeftInner(b: Byte, n: nat)
    ensures ShiftLeft(b, n + 1) == ShiftLeft(ShiftLeftOne(b), n)
  {
    hide ShiftLeftOne;
    if n > 0 {
      ShiftLeftInner(b, n - 1);
    }
  }

  lemma ShiftRightSeven(b: Byte)
    requires !Top(b)
    ensures ShiftRight(b, 7) == ZeroByte
  {
    ShiftsSix(b, 6);
    assert ShiftRight(b, 7) == ShiftRightOne(ShiftRight(b, 6));
  }

  lemma ShiftLeftZero(b: Byte)
    ensures ShiftLeft(b, 0) == b
  {
  }

  /** Moving the pattern up and the offset down by the same number of bits is the same error. */
  lemma ErrorMoves(s: Slot)
    requires s.bit < 87 && !Top(s.pattern)
    ensures ErrorAt(Slot(s.bit + 1, ShiftLeftOne(s.pattern))) == ErrorAt(s)
  {
    hide ShiftLeft, ShiftRight, ShiftLeftOne, ShiftRightOne;
    var b, k := s.pattern, s.bit % 8;
    var c := ShiftLeftOne(b);
    RightThenLeft(b);
    if k < 7 {
      assert (s.bit + 1) / 8 == s.bit / 8 && (s.bit + 1) % 8 == k + 1;
      ShiftRightInner(c, k);
      ShiftLeftInner(b, 7 - k);
    } else {
      assert (s.bit + 1) / 8 == s.bit / 8 + 1 && (s.bit + 1) % 8 == 0;
      ShiftRightSeven(b);
      ShiftLeftInner(b, 0);
      ShiftLeftZero(c);
      ShiftRightZero(c);
      ShiftLeftEight(c);
    }
    assert forall i :: 0 <= i < 12 ==> ErrorByte(Slot(s.bit + 1, c), i) == ErrorByte(s, i);
  }

  lemma {:induction false} ErrorClimbs(s: Slot, u: nat)
    requires Climbs(s.pattern, u) && s.bit + u < 88
    ensures ErrorAt(Slot(s.bit + u, ShiftLeft(s.pattern, u))) == ErrorAt(s)
  {
    hide ErrorAt, ShiftLeftOne, Top;
    if u > 0 {
      ErrorClimbs(s, u - 1);
      ErrorMoves(Slot(s.bit + u - 1, ShiftLeft(s.pattern, u - 1)));
    } else {
      ShiftLeftZero(s.pattern);
    }
  }

  /** Two bursts that do not straddle and have the same syndrome are the same error. */
  lemma BurstsDistinct(s: Slot, t: Slot)
    requires Fits(s) && !Straddles(s) && Fits(t) && !Straddles(t)
    requires Syndrome(ErrorAt(s)) == Syndrome(ErrorAt(t))
    ensures ErrorAt(s) == ErrorAt(t)
  {
    hide Syndrome, ErrorAt, Burst, Iterate, Entered, ShiftLeft, Top, Climbs;
    ClimbsNone(s.pattern);
    ClimbsNone(t.pattern);
    var u := Peak(s.pattern, 0);
    var v := Peak(t.pattern, 0);
    var b, d := ShiftLeft(s.pattern, u), ShiftLeft(t.pattern, v);
    var m, n := 87 - CodeBit(s) - u, 87 - CodeBit(t) - v;
    Climbed(s.pattern, u);
    Climbed(t.pattern, v);
    SyndromeAtPeak(s, u);
    SyndromeAtPeak(t, v);
    if m >= n {
      IterateAdd(Entered(b), m - n, n);
      IterateInjective(Iterate(Entered(b), m - n), Entered(d), n);
      PeaksDistinct(b, d, m - n);
    } else {
      IterateAdd(Entered(d), n - m, m);
      IterateInjective(Iterate(Entered(d), n - m), Entered(b), m);
      PeaksDistinct(d, b, n - m);
    }
    ErrorClimbs(s, u);
    ErrorClimbs(t, v);
  }

  lemma ClimbsNone(b: Byte)
    ensures Climbs(b, 0)
  {
  }

  lemma SyndromeAtPeak(s: Slot, u: nat)
    requires Fits(s) && !Straddles(s) && u < 8 && Climbs(s.pattern, u)
    ensures CodeBit(s) <= 80
    ensures Iterate(Syndrome(ErrorAt(s)), 7) == Iterate(Entered(ShiftLeft(s.pattern, u)), 87 - CodeBit(s) - u)
  {
    hide Syndrome, ErrorAt, Burst, Iterate, Entered, ShiftLeft, Climbs;
    SyndromeOf(s);
    Climbed(s.pattern, u);
    var e := Entered(s.pattern);
    IterateAdd(e, 80 - CodeBit(s), 7);
    IterateAdd(e, u, 87 - CodeBit(s) - u);
  }

  // ----- no error of the plan looks like a valid header -----

  lemma StraddlingParts(b: Byte, k: nat)
    requires k in {2, 4, 6}
    requires Rot(Rot(Rot(InsC(ShiftLeft(b, 8 - k))))) == InsC(ShiftRight(b, k))
    ensures b == ZeroByte
  {
    hide ShiftLeft, ShiftRight;
    ShiftsTwo(b);
    ShiftsFour(b);
    ShiftsSix(b, 6);
  }

  lemma StraddlingSyndrome(s: Slot)
    requires Fits(s) && Straddles(s)
    ensures Syndrome(ErrorAt(s)) == Xor(Iterate(Entered(ShiftLeft(s.pattern, 16 - s.bit)), 80),
                                        Entered(ShiftRight(s.pattern, s.bit - 8)))
  {
    hide StepByte, Divide, Iterate, Burst, ShiftLeft, ShiftRight, Xor;
    var l, h := ShiftLeft(s.pattern, 16 - s.bit), ShiftRight(s.pattern, s.bit - 8);
    var d := CodeOrder(ErrorAt(s));
    assert d[0] == l && d[10] == h && forall i :: 1 <= i < 10 ==> d[i] == ZeroByte;
    assert d[..11] == d;
    ZerosFirst(d, 0);
    DivideNext(d, 0);
    ZerosLast(d, 1, 10);
    DivideNext(d, 10);
    var w := Iterate(Entered(l), 72);
    EightSteps(w);
    EightAfter(Entered(l), 72);
    XorZeroLeft(h);
    StepByteLinear(w, ZeroByte, Zero, h, FirePoly);
    XorZero(w);
  }

  lemma EightAfter(w: Word, n: nat)
    ensures Iterate(Iterate(w, n), 8) == Iterate(w, n + 8)
  {
    IterateAdd(w, n, 8);
  }

  lemma XorZeroLeft(b: Byte)
    ensures XorByte(ZeroByte, b) == b
  {
  }

  lemma SyndromeNonZero(s: Slot)
    requires Fits(s)
    ensures Syndrome(ErrorAt(s)) != Zero
  {
    hide *;
    FitsIs(s);
    if Straddles(s) {
      var l, h := ShiftLeft(s.pattern, 16 - s.bit), ShiftRight(s.pattern, s.bit - 8);
      StraddlingSyndrome(s);
      if Syndrome(ErrorAt(s)) == Zero {
        XorIsZero(Iterate(Entered(l), 80), Entered(h));
        FoldCIterate(Entered(l), 80);
        FoldCByte(l);
        FoldCByte(h);
        RotModulo(InsC(l), 80);
        RotThree(InsC(l));
        StraddlingParts(s.pattern, s.bit - 8);
      }
    } else {
      SyndromeOf(s);
      if Syndrome(ErrorAt(s)) == Zero {
        IterateZero(80 - CodeBit(s));
        IterateInjective(Entered(s.pattern), Zero, 80 - CodeBit(s));
        FoldCByte(s.pattern);
        InsCNonZero(s.pattern);
      }
    }
  }

  lemma FitsIs(s: Slot)
    requires Fits(s)
    ensures s.bit <= 80 && s.pattern != ZeroByte
    ensures Straddles(s) ==> s.bit == 10 || s.bit == 12 || s.bit == 14
  {
  }

  lemma RotThree(c: Cyc)
    ensures RotN(c, 3) == Rot(Rot(Rot(c)))
  {
    hide Rot;
    RotNext(c, 0);
    RotNext(c, 1);
    RotNext(c, 2);
  }

  lemma {:induction false} IterateZero(n: nat)
    ensures Iterate(Zero, n) == Zero
  {
    hide Step;
    StepZeroZero();
    if n > 0 {
      IterateZero(n - 1);
    }
  }

  lemma InsCNonZero(b: Byte)
    requires InsC(b) == FoldC(Zero)
    ensures b == ZeroByte
  {
  }
}
