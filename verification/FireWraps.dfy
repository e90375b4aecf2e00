/** Bursts that wrap around the code word, from its end in x[1] to its beginning in x[2], and the other bursts with the
    same syndrome. */
module FireWraps {
  import opened Crc
  import opened CrcTable
  import opened FireCode
  import opened FireResidue
  import opened FireBursts
  import opened FireCorrection
  import opened FireBits

  // ----- residues modulo the factor of degree five, in closed form -----

  /** Four bits times x^16. */
  function QNibble(n: Nibble): Quint {
    Quint((n.b3 != n.b1) != n.b0, (n.b3 != n.b2) != n.b0, n.b2 != n.b0, n.b3 != n.b0, (n.b2 != n.b1) != n.b0)
  }

  function X4(q: Quint): Quint {
    Quint((q.q3 != q.q2) != q.q0, (q.q4 != q.q2) != q.q1, q.q2 != q.q1, (q.q3 != q.q2) != q.q1, (q.q4 != q.q3) != q.q1)
  }

  /** A byte times x^16. */
  function QOf(b: Byte): Quint {
    Quint((((((b.hi.b3 != b.hi.b2) != b.hi.b1) != b.hi.b0) != b.lo.b3) != b.lo.b1) != b.lo.b0,
          ((((b.hi.b2 != b.hi.b1) != b.hi.b0) != b.lo.b3) != b.lo.b2) != b.lo.b0,
          ((b.hi.b3 != b.hi.b2) != b.lo.b2) != b.lo.b0,
          (b.hi.b0 != b.lo.b3) != b.lo.b0,
          (((((b.hi.b3 != b.hi.b2) != b.hi.b1) != b.hi.b0) != b.lo.b2) != b.lo.b1) != b.lo.b0)
  }

  lemma NibblesJoin(b: Byte)
    ensures XorQ(X4(QNibble(b.hi)), QNibble(b.lo)) == QOf(b)
  {
    JoinQ4(b);
    JoinQ3(b);
    JoinQ2(b);
    JoinLow(b);
    hide QOf, X4, QNibble;
  }

  lemma JoinQ4(b: Byte)
    ensures XorQ(X4(QNibble(b.hi)), QNibble(b.lo)).q4 == QOf(b).q4
  {
  }

  lemma JoinQ3(b: Byte)
    ensures XorQ(X4(QNibble(b.hi)), QNibble(b.lo)).q3 == QOf(b).q3
  {
  }

  lemma JoinQ2(b: Byte)
    ensures XorQ(X4(QNibble(b.hi)), QNibble(b.lo)).q2 == QOf(b).q2
  {
  }

  lemma JoinLow(b: Byte)
    ensures XorQ(X4(QNibble(b.hi)), QNibble(b.lo)).q1 == QOf(b).q1
    ensures XorQ(X4(QNibble(b.hi)), QNibble(b.lo)).q0 == QOf(b).q0
  {
  }

  lemma FeedLinear(q: Quint, r: Quint, x: bool)
    ensures FeedQ(XorQ(q, r), x) == XorQ(FeedQ(q, false), FeedQ(r, x))
  {
  }

  lemma Feed4Linear(q: Quint, n: Nibble)
    ensures Feed4Q(q, n) == XorQ(Feed4Q(q, Zero4), Feed4Q(QZero, n))
  {
    hide FeedQ, XorQ;
    XorQNone(q);
    FeedLinear(q, QZero, n.b3);
    var q1, r1 := FeedQ(q, false), FeedQ(QZero, n.b3);
    FeedLinear(q1, r1, n.b2);
    var q2, r2 := FeedQ(q1, false), FeedQ(r1, n.b2);
    FeedLinear(q2, r2, n.b1);
    FeedLinear(FeedQ(q2, false), FeedQ(r2, n.b1), n.b0);
  }

  lemma XorQNone(q: Quint)
    ensures XorQ(q, QZero) == q
  {
  }

  lemma Feed4None(q: Quint)
    ensures Feed4Q(q, Zero4) == X4(q)
  {
  }

  lemma Feed4Zero(n: Nibble)
    ensures Feed4Q(QZero, n) == QNibble(n)
  {
  }

  lemma QOfIs(b: Byte)
    ensures FoldQ(Entered(b)) == QOf(b)
  {
    hide FoldQ, Entered, Feed4Q, X4, QNibble, XorQ, QOf;
    FoldQByte(b);
    Feed4Zero(b.hi);
    Feed4Zero(b.lo);
    Feed4Linear(QNibble(b.hi), b.lo);
    Feed4None(QNibble(b.hi));
    NibblesJoin(b);
  }

  /** Times x^22 to x^88. */
  function X22(q: Quint): Quint {
    Quint((q.q4 != q.q1) != q.q0, q.q3 != q.q0, ((q.q4 != q.q2) != q.q1) != q.q0,
          q.q3, (q.q2 != q.q1) != q.q0)
  }

  function X33(q: Quint): Quint {
    Quint(q.q4 != q.q2, (q.q4 != q.q3) != q.q1, (q.q4 != q.q3) != q.q0,
          q.q4 != q.q3, q.q3)
  }

  function X44(q: Quint): Quint {
    Quint((q.q4 != q.q3) != q.q2, (q.q3 != q.q2) != q.q1, (q.q3 != q.q1) != q.q0,
          q.q3 != q.q0, q.q4 != q.q3)
  }

  function X55(q: Quint): Quint {
    Quint(q.q2, q.q4 != q.q1, ((q.q4 != q.q3) != q.q2) != q.q0,
          (q.q4 != q.q3) != q.q1, q.q3 != q.q0)
  }

  function X66(q: Quint): Quint {
    Quint((q.q3 != q.q2) != q.q0, (q.q4 != q.q2) != q.q1, q.q2 != q.q1,
          (q.q3 != q.q2) != q.q1, (q.q4 != q.q3) != q.q1)
  }

  function X77(q: Quint): Quint {
    Quint(((q.q4 != q.q2) != q.q1) != q.q0, ((q.q4 != q.q3) != q.q1) != q.q0, q.q3 != q.q1,
          q.q4 != q.q1, (q.q3 != q.q2) != q.q1)
  }

  function X88(q: Quint): Quint {
    Quint((q.q4 != q.q3) != q.q0, q.q3 != q.q2, (((q.q4 != q.q3) != q.q2) != q.q1) != q.q0,
          (q.q4 != q.q2) != q.q1, q.q4 != q.q1)
  }

  /** Times x^(11 m). */
  function XElevens(q: Quint, m: nat): Quint
    requires m < 8
  {
    if m == 0 then q else if m == 1 then X11(q) else if m == 2 then X22(q) else if m == 3 then X33(q)
    else if m == 4 then X44(q) else if m == 5 then X55(q) else if m == 6 then X66(q) else X77(q)
  }

  lemma XStepsTo44(q: Quint)
    ensures X22(q) == X11(X11(q)) && X33(q) == X11(X22(q)) && X44(q) == X11(X33(q))
  {
  }

  lemma XStepsTo88(q: Quint)
    ensures X55(q) == X11(X44(q)) && X66(q) == X11(X55(q)) && X77(q) == X11(X66(q)) && X88(q) == X11(X77(q))
  {
  }

  lemma XElevensIs(q: Quint, m: nat)
    requires m < 8
    ensures XN(q, 11 * m) == XElevens(q, m)
    ensures XN(q, 88) == X88(q)
  {
    hide XN, X11, X22, X33, X44, X55, X66, X77, X88;
    XStepsTo44(q);
    XStepsTo88(q);
    XStart(q);
    XEleven(q, 0);
    XEleven(q, 11);
    XEleven(q, 22);
    XEleven(q, 33);
    XEleven(q, 44);
    XEleven(q, 55);
    XEleven(q, 66);
    XEleven(q, 77);
  }

  // ----- the two parts of a burst -----

  /** The first c bits of a pattern, and the others. */
  function First(b: Byte, c: nat): Byte {
    Byte(Nibble(c > 0 && b.hi.b3, c > 1 && b.hi.b2, c > 2 && b.hi.b1, c > 3 && b.hi.b0),
         Nibble(c > 4 && b.lo.b3, c > 5 && b.lo.b2, c > 6 && b.lo.b1, c > 7 && b.lo.b0))
  }

  function Others(b: Byte, c: nat): Byte {
    Byte(Nibble(c <= 0 && b.hi.b3, c <= 1 && b.hi.b2, c <= 2 && b.hi.b1, c <= 3 && b.hi.b0),
         Nibble(c <= 4 && b.lo.b3, c <= 5 && b.lo.b2, c <= 6 && b.lo.b1, c <= 7 && b.lo.b0))
  }

  /** The residue of a burst whose last bits have gone once around the code word. */
  function Skew(b: Byte, c: nat): Quint {
    XorQ(X88(QOf(Others(b, c))), QOf(First(b, c)))
  }

  /** With c bits in x[1], the burst meets the one with the same pattern 11 m places behind it. */
  predicate Twins(b: Byte, c: nat, m: nat) {
    match c
    case 1 => Twin1(b, m)
    case 2 => Twin2(b, m)
    case 3 => Twin3(b, m)
    case 4 => Twin4(b, m)
    case 5 => Twin5(b, m)
    case _ => false
  }

  /** 1 bit in x[1]. */
  predicate Twin1(b: Byte, m: nat) {
    || (b == Byte(NA, N0) && m == 1) || (b == Byte(ND, N0) && m == 2) || (b == Byte(NA, N8) && m == 3)
    || (b == Byte(N8, NC) && m == 7) || (b == Byte(ND, N4) && m == 4) || (b == Byte(NE, N4) && m == 5)
    || (b == Byte(NE, NC) && m == 6)
  }

  /** 2 bits in x[1]. */
  predicate Twin2(b: Byte, m: nat) {
    || (b == Byte(NA, N0) && m == 1) || (b == Byte(NE, N0) && m == 4) || (b == Byte(NF, N0) && m == 1)
    || (b == Byte(NA, N8) && m == 3) || (b == Byte(NC, N8) && m == 5) || (b == Byte(N8, NC) && m == 7)
    || (b == Byte(NC, N4) && m == 6) || (b == Byte(NF, NC) && m == 3)
  }

  /** 3 bits in x[1]. */
  predicate Twin3(b: Byte, m: nat) {
    || (b == Byte(NC, N8) && m == 5) || (b == Byte(N8, NC) && m == 7) || (b == Byte(NA, NC) && m == 5)
    || (b == Byte(NC, N4) && m == 6)
  }

  /** 4 bits in x[1]. */
  predicate Twin4(b: Byte, m: nat) {
    || (b == Byte(NB, N8) && m == 3) || (b == Byte(NC, N8) && m == 5) || (b == Byte(N8, NC) && m == 7)
    || (b == Byte(N9, N4) && m == 2) || (b == Byte(NA, NC) && m == 5) || (b == Byte(NC, N4) && m == 6)
  }

  /** 5 bits in x[1]. */
  predicate Twin5(b: Byte, m: nat) {
    || (b == Byte(N9, N4) && m == 2) || (b == Byte(NA, NC) && m == 7) || (b == Byte(NC, N4) && m == 6)
  }

  /** A pattern of at most six bits that starts with its first bit. */
  predicate Pattern(b: Byte) {
    b.hi.b3 && !b.lo.b1 && !b.lo.b0 && b != Byte(NB, NC)
  }

  lemma Skew1Near(b: Byte, m: nat)
    requires Pattern(b) && Others(b, 1) != ZeroByte && m < 4
    ensures Skew(b, 1) == XElevens(QOf(b), m) <==> Twin1(b, m)
  {
  }

  lemma Skew1Far(b: Byte, m: nat)
    requires Pattern(b) && Others(b, 1) != ZeroByte && 4 <= m < 8
    ensures Skew(b, 1) == XElevens(QOf(b), m) <==> Twin1(b, m)
  {
  }

  lemma Skew2Near(b: Byte, m: nat)
    requires Pattern(b) && Others(b, 2) != ZeroByte && m < 4
    ensures Skew(b, 2) == XElevens(QOf(b), m) <==> Twin2(b, m)
  {
  }

  lemma Skew2Far(b: Byte, m: nat)
    requires Pattern(b) && Others(b, 2) != ZeroByte && 4 <= m < 8
    ensures Skew(b, 2) == XElevens(QOf(b), m) <==> Twin2(b, m)
  {
  }

  lemma Skew3Near(b: Byte, m: nat)
    requires Pattern(b) && Others(b, 3) != ZeroByte && m < 4
    ensures Skew(b, 3) == XElevens(QOf(b), m) <==> Twin3(b, m)
  {
  }

  lemma Skew3Far(b: Byte, m: nat)
    requires Pattern(b) && Others(b, 3) != ZeroByte && 4 <= m < 8
    ensures Skew(b, 3) == XElevens(QOf(b), m) <==> Twin3(b, m)
  {
  }

  lemma Skew4Near(b: Byte, m: nat)
    requires Pattern(b) && Others(b, 4) != ZeroByte && m < 4
    ensures Skew(b, 4) == XElevens(QOf(b), m) <==> Twin4(b, m)
  {
  }

  lemma Skew4Far(b: Byte, m: nat)
    requires Pattern(b) && Others(b, 4) != ZeroByte && 4 <= m < 8
    ensures Skew(b, 4) == XElevens(QOf(b), m) <==> Twin4(b, m)
  {
  }

  lemma Skew5Near(b: Byte, m: nat)
    requires Pattern(b) && Others(b, 5) != ZeroByte && m < 4
    ensures Skew(b, 5) == XElevens(QOf(b), m) <==> Twin5(b, m)
  {
  }

  lemma Skew5Far(b: Byte, m: nat)
    requires Pattern(b) && Others(b, 5) != ZeroByte && 4 <= m < 8
    ensures Skew(b, 5) == XElevens(QOf(b), m) <==> Twin5(b, m)
  {
  }

  lemma SkewIs(b: Byte, c: nat, m: nat)
    requires Pattern(b) && 1 <= c <= 5 && Others(b, c) != ZeroByte && m < 8
    ensures Skew(b, c) == XElevens(QOf(b), m) <==> Twins(b, c, m)
  {
    hide Pattern, Others, Skew, QOf, XElevens, Twin1, Twin2, Twin3, Twin4, Twin5;
    if m < 4 {
      match c
      case 1 => Skew1Near(b, m);
      case 2 => Skew2Near(b, m);
      case 3 => Skew3Near(b, m);
      case 4 => Skew4Near(b, m);
      case _ => Skew5Near(b, m);
    } else {
      match c
      case 1 => Skew1Far(b, m);
      case 2 => Skew2Far(b, m);
      case 3 => Skew3Far(b, m);
      case 4 => Skew4Far(b, m);
      case _ => Skew5Far(b, m);
    }
  }

  // ----- the syndrome of a burst that wraps -----

  lemma {:induction false} IterateLinear(v: Word, w: Word, n: nat)
    ensures Iterate(Xor(v, w), n) == Xor(Iterate(v, n), Iterate(w, n))
  {
    hide Xor, Step;
    if n > 0 {
      IterateLinear(v, w, n - 1);
      StepLinear(Iterate(v, n - 1), false, Iterate(w, n - 1), false, false, FirePoly);
    }
  }

  lemma {:induction false} ClimbsZeros(b: Byte, u: nat)
    requires u <= 8 && forall j :: 0 <= j < u ==> !BitOf(b, j)
    ensures Climbs(b, u)
  {
    hide BitOf, ShiftLeft, Top;
    if u > 0 {
      ClimbsZeros(b, u - 1);
      LeftBit(b, u - 1, 0);
      TopIs(ShiftLeft(b, u - 1));
    }
  }

  lemma TopIs(b: Byte)
    ensures Top(b) <==> BitOf(b, 0)
  {
  }

  lemma PartBits(b: Byte, c: nat, j: nat)
    requires j < 8
    ensures BitOf(First(b, c), j) == (j < c && BitOf(b, j))
    ensures BitOf(Others(b, c), j) == (c <= j && BitOf(b, j))
  {
  }

  /** What lies in x[2] is the last part of the pattern, moved up; what lies in x[1] the first part, moved down. */
  lemma PartsMove(b: Byte, c: nat)
    requires c <= 8
    ensures ShiftLeft(b, c) == ShiftLeft(Others(b, c), c) && Climbs(Others(b, c), c)
    ensures First(b, c) == ShiftLeft(ShiftRight(b, 8 - c), 8 - c) && Climbs(ShiftRight(b, 8 - c), 8 - c)
  {
    hide BitOf, ShiftLeft, ShiftRight, First, Others, Climbs;
    var h, l := ShiftRight(b, 8 - c), Others(b, c);
    forall j | 0 <= j < 8
      ensures BitOf(ShiftLeft(b, c), j) == BitOf(ShiftLeft(l, c), j)
      ensures BitOf(First(b, c), j) == BitOf(ShiftLeft(h, 8 - c), j)
    {
      LeftBit(b, c, j);
      LeftBit(l, c, j);
      LeftBit(h, 8 - c, j);
      PartBits(b, c, j);
      if j + c < 8 {
        PartBits(b, c, j + c);
      } else {
        BeyondByte(b, j + c);
        BeyondByte(l, j + c);
      }
      if j + 8 - c < 8 {
        RightBit(b, 8 - c, j + 8 - c);
      } else {
        BeyondByte(h, j + 8 - c);
      }
    }
    SameBits(ShiftLeft(b, c), ShiftLeft(l, c));
    SameBits(First(b, c), ShiftLeft(h, 8 - c));
    forall j | 0 <= j < 8
      ensures j < c ==> !BitOf(l, j)
      ensures j < 8 - c ==> !BitOf(h, j)
    {
      PartBits(b, c, j);
      RightBit(b, 8 - c, j);
    }
    ClimbsZeros(l, c);
    ClimbsZeros(h, 8 - c);
  }

  lemma PartsBurst(b: Byte, c: nat)
    requires Pattern(b) && 1 <= c <= 5
    ensures Burst(Others(b, c)) && Burst(First(b, c)) && Burst(ShiftRight(b, 8 - c))
    ensures First(b, c) != ZeroByte && ShiftRight(b, 8 - c) != ZeroByte
  {
    hide ShiftRight;
    DownBits(b, 8 - c);
  }

  lemma DownBits(b: Byte, u: nat)
    requires 3 <= u <= 7
    ensures var d := ShiftRight(b, u);
            && !d.hi.b3 && !d.hi.b2 && !d.hi.b1 && d.hi.b0 == (u == 3 && b.hi.b3)
            && d.lo.b3 == (if u == 3 then b.hi.b2 else u == 4 && b.hi.b3)
            && d.lo.b2 == (if u == 3 then b.hi.b1 else if u == 4 then b.hi.b2 else u == 5 && b.hi.b3)
            && d.lo.b1 == (if u == 3 then b.hi.b0 else if u == 4 then b.hi.b1 else if u == 5 then b.hi.b2
                           else u == 6 && b.hi.b3)
            && d.lo.b0 == (if u == 3 then b.lo.b3 else if u == 4 then b.hi.b0 else if u == 5 then b.hi.b1
                           else if u == 6 then b.hi.b2 else b.hi.b3)
  {
    hide ShiftRight;
    RightBit(b, u, 0);
    RightBit(b, u, 1);
    RightBit(b, u, 2);
    RightBit(b, u, 3);
    RightBit(b, u, 4);
    RightBit(b, u, 5);
    RightBit(b, u, 6);
    RightBit(b, u, 7);
  }

  /** A burst with c bits in x[1] and the others in x[2], 8 - c steps on: its last part has gone around the code word. */
  ghost function Wrapped(b: Byte, c: nat): Word {
    Xor(Iterate(Entered(Others(b, c)), 88), Entered(First(b, c)))
  }

  lemma WrapSyndrome(t: Slot, s: Slot)
    requires 11 <= s.bit <= 15 && Fits(t) && Straddles(t) && ErrorAt(t) == ErrorAt(s)
    requires Pattern(s.pattern) && Others(s.pattern, 16 - s.bit) != ZeroByte
    ensures Iterate(Syndrome(ErrorAt(t)), s.bit - 8) == Wrapped(s.pattern, 16 - s.bit)
  {
    hide Syndrome, ErrorAt, Burst, Fits, Iterate, Entered, ShiftLeft, ShiftRight, First, Others, Pattern, Xor, Climbs;
    var b, c := s.pattern, 16 - s.bit;
    var l, h := ShiftLeft(b, c), ShiftRight(b, 8 - c);
    FitsIs(t);
    StraddlingSyndrome(t);
    assert ErrorAt(t)[1] == ErrorByte(t, 1) && ErrorAt(t)[2] == ErrorByte(t, 2);
    assert ErrorAt(s)[1] == ErrorByte(s, 1) && ErrorAt(s)[2] == ErrorByte(s, 2);
    PartsMove(b, c);
    PartsBurst(b, c);
    Climbed(Others(b, c), c);
    Climbed(h, 8 - c);
    IterateLinear(Iterate(Entered(l), 80), Entered(h), 8 - c);
    IterateAdd(Entered(l), 80, 8 - c);
    IterateAdd(Entered(Others(b, c)), c, 88 - c);
  }

  lemma WrappedResidues(b: Byte, c: nat)
    requires c <= 8
    ensures FoldC(Wrapped(b, c)) == InsC(b) && FoldQ(Wrapped(b, c)) == Skew(b, c)
  {
    hide FoldC, FoldQ, Xor, Iterate, Entered, InsC, XorC, XorQ, First, Others, RotN, XN, X88, QOf;
    var o, f := Others(b, c), First(b, c);
    FoldCXor(Iterate(Entered(o), 88), Entered(f));
    FoldQXor(Iterate(Entered(o), 88), Entered(f));
    FoldCIterate(Entered(o), 88);
    FoldQIterate(Entered(o), 88);
    RotModulo(InsC(o), 88);
    RotStart(InsC(o));
    FoldCByte(o);
    FoldCByte(f);
    QOfIs(o);
    QOfIs(f);
    XElevensIs(QOf(o), 0);
    PartsJoin(b, c);
  }

  lemma PartsJoin(b: Byte, c: nat)
    ensures XorC(InsC(Others(b, c)), InsC(First(b, c))) == InsC(b)
  {
  }

  // ----- which other burst has the same syndrome -----

  /** The bits of the code word behind the first bit of a burst. */
  function Place(v: Slot): int {
    if v.bit < 16 then 15 - v.bit else 103 - v.bit
  }

  lemma NormalSyndrome(z: Slot, v: Slot)
    requires Fits(z) && !Straddles(z) && v.bit < 88 && BitOf(v.pattern, 0) && ErrorAt(z) == ErrorAt(v)
    ensures 0 <= Place(v) < 88 && Iterate(Syndrome(ErrorAt(z)), 7) == Iterate(Entered(v.pattern), Place(v))
  {
    hide Syndrome, ErrorAt, Burst, Iterate, Entered, ShiftLeft, Climbs, BitOf, Top;
    ClimbsNone(z.pattern);
    var u := Peak(z.pattern, 0);
    ErrorClimbs(z, u);
    TopIs(ShiftLeft(z.pattern, u));
    NormalUnique(v, Slot(z.bit + u, ShiftLeft(z.pattern, u)));
    SyndromeAtPeak(z, u);
  }

  lemma PatternIs(b: Byte)
    requires Pattern(b)
    ensures Burst(b) && Top(b) && b != ZeroByte
  {
  }

  /** Words that meet after different numbers of steps. */
  lemma MeetAfter(w: Word, b: Byte, d: Byte, a: nat, n: nat)
    requires Pattern(b) && Pattern(d) && FoldC(w) == InsC(b) && a < 11 && n < 88
    requires Iterate(w, a) == Iterate(Entered(d), n)
    ensures a <= n && (n - a) % 11 == 0 && b == d && w == Iterate(Entered(d), n - a)
  {
    hide FoldC, InsC, Iterate, Entered, Pattern, Burst, Top, RotN;
    PatternIs(b);
    PatternIs(d);
    FoldCByte(d);
    if n >= a {
      IterateAdd(Entered(d), n - a, a);
      IterateInjective(w, Iterate(Entered(d), n - a), a);
      FoldCIterate(Entered(d), n - a);
      RotModulo(InsC(d), n - a);
      RotDistinct(d, b, (n - a) % 11);
    } else {
      IterateAdd(w, a - n, n);
      IterateInjective(Iterate(w, a - n), Entered(d), n);
      FoldCIterate(w, a - n);
      RotDistinct(b, d, a - n);
    }
  }

  /** A wrapped burst with the residues of the burst 11 m places behind it is that burst. */
  lemma MeetIf(b: Byte, c: nat, m: nat)
    requires c <= 8 && m < 8
    ensures Wrapped(b, c) == Iterate(Entered(b), 11 * m) <==> Skew(b, c) == XElevens(QOf(b), m)
  {
    hide FoldC, FoldQ, Iterate, Entered, Wrapped, Skew, QOf, XElevens, InsC, RotN, XN;
    WrappedResidues(b, c);
    FoldCByte(b);
    FoldCIterate(Entered(b), 11 * m);
    RotModulo(InsC(b), 11 * m);
    RotStart(InsC(b));
    FoldQIterate(Entered(b), 11 * m);
    QOfIs(b);
    XElevensIs(QOf(b), m);
    assert 11 * m % 11 == 0;
    if FoldQ(Wrapped(b, c)) == FoldQ(Iterate(Entered(b), 11 * m)) {
      ResiduesDecide(Wrapped(b, c), Iterate(Entered(b), 11 * m));
    }
  }

  /** A burst that wraps and one that does not have the same syndrome if and only if they have the same pattern and the
      distance the table says. */
  ghost predicate Meets(s: Slot, v: Slot) {
    && s.bit < 16 && v.pattern == s.pattern
    && exists m :: 0 <= m < 8 && Place(v) == 15 - s.bit + 11 * m && Twins(s.pattern, 16 - s.bit, m)
  }

  lemma MeetsExactly(t: Slot, s: Slot, z: Slot, v: Slot)
    requires 11 <= s.bit <= 15 && Fits(t) && Straddles(t) && ErrorAt(t) == ErrorAt(s)
    requires Pattern(s.pattern) && Others(s.pattern, 16 - s.bit) != ZeroByte
    requires v.bit < 88 && Fits(z) && !Straddles(z) && ErrorAt(z) == ErrorAt(v) && Pattern(v.pattern)
    ensures Syndrome(ErrorAt(t)) == Syndrome(ErrorAt(z)) <==> Meets(s, v)
  {
    hide Syndrome, ErrorAt, Fits, Straddles, Iterate, Entered, Pattern, Others, Wrapped, Skew, Twins, XElevens, QOf, FoldC,
         FoldQ, InsC, BitOf;
    FitsOffset(t);
    FitsOffset(z);
    var b, c := s.pattern, 16 - s.bit;
    var x, y, w := Syndrome(ErrorAt(t)), Syndrome(ErrorAt(z)), Wrapped(b, c);
    FirstBit(v.pattern);
    NormalSyndrome(z, v);
    WrapSyndrome(t, s);
    WrappedResidues(b, c);
    IterateAdd(x, s.bit - 8, c - 1);
    var n := Place(v);
    if x == y {
      MeetAfter(w, b, v.pattern, c - 1, n);
      var m := (n - (c - 1)) / 11;
      assert n - (c - 1) == 11 * m && m < 8;
      MeetIf(b, c, m);
      SkewIs(b, c, m);
      assert Place(v) == 15 - s.bit + 11 * m;
    }
    if Meets(s, v) {
      var m :| 0 <= m < 8 && n == 15 - s.bit + 11 * m && Twins(b, c, m);
      SkewIs(b, c, m);
      MeetIf(b, c, m);
      IterateAdd(Entered(b), 11 * m, c - 1);
      IterateInjective(x, y, 7);
    }
  }

  lemma FirstBit(b: Byte)
    requires Pattern(b)
    ensures BitOf(b, 0)
  {
  }
}
