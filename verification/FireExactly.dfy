/** check_and_correct_6bits is said to correct every error burst of up to six bits; this is exactly when it does. */
module FireExactly {
  import opened Crc
  import opened CrcTable
  import opened FireCode
  import opened FireResidue
  import opened FireBursts
  import opened FireCorrection
  import opened FireBits
  import opened FireListed
  import opened FireWraps

  // ----- the order of the visits -----

  /** Bursts inside a byte come first, then those at offset 4, row by row, then offset 2, then offset 6. */
  function Turn(bit: nat): nat {
    if bit % 8 == 0 then 0 else if bit % 8 == 4 then 1 + bit / 8 else if bit % 8 == 2 then 20 else 21
  }

  lemma {:induction false} BlockSplit(rows: nat, m: nat, lo: nat, hi: nat, sh: nat) returns (rest: seq<Slot>)
    requires m <= rows <= 11 && lo <= hi <= 124 && sh < 8
    ensures BlockList(rows, lo, hi, sh) == BlockList(m, lo, hi, sh) + rest && Proper(rest)
  {
    hide RowList, Proper;
    if m == rows {
      rest := [];
      NoneProper();
    } else {
      rest := BlockSplit(rows - 1, m, lo, hi, sh);
      var row := RowList(rows - 1, lo, hi, sh, hi - lo);
      RowProper(rows - 1, lo, hi, sh, hi - lo);
      BothProper(rest, row);
      rest := rest + row;
    }
  }

  lemma NoneProper()
    ensures Proper([])
  {
  }

  lemma BothProper(a: seq<Slot>, b: seq<Slot>)
    requires Proper(a) && Proper(b)
    ensures Proper(a + b)
  {
  }

  /** The answer comes from any beginning of the plan that holds an error with the syndrome. */
  lemma AnswerIn(t: Slot, a: seq<Slot>, b: seq<Slot>)
    requires t.bit < 88 && t in a && Plan() == a + b && Proper(a) && Proper(b)
    ensures Answer(t) in a
  {
    hide Plan, Syndrome, ErrorAt, FirstWith;
    var w := Syndrome(ErrorAt(t));
    PlanProper();
    FirstWithSyndrome(a, w);
    FirstWithPrefix(a, b, w);
  }

  /** The plan, cut behind row i of the errors at offset 4. */
  lemma PlanRows(i: nat) returns (rest: seq<Slot>)
    requires i < 10
    ensures Plan() == (BlockList(11, 0, 124, 0) + BlockList(i + 1, 0, 45, 4)) + rest
    ensures Proper(BlockList(11, 0, 124, 0) + BlockList(i + 1, 0, 45, 4)) && Proper(rest)
  {
    hide *;
    PlanIs();
    rest := BlockSplit(10, i + 1, 0, 45, 4);
    var a, m, b, d := BlockList(11, 0, 124, 0), BlockList(i + 1, 0, 45, 4), BlockList(10, 45, 75, 2), BlockList(10, 60, 90, 6);
    BlockProper(11, 0, 124, 0);
    BlockProper(i + 1, 0, 45, 4);
    BlockProper(10, 45, 75, 2);
    BlockProper(10, 60, 90, 6);
    BothProper(a, m);
    BothProper(b, d);
    BothProper(rest, b + d);
    assert (a + m) + (rest + (b + d)) == a + ((m + rest) + (b + d));
    rest := rest + (b + d);
  }

  lemma AnswerRow(t: Slot)
    requires t in Plan() && t.bit < 88 && t.bit % 8 == 4
    ensures Turn(Answer(t).bit) <= Turn(t.bit)
  {
    hide BlockList, Answer, Proper, Plan, Patterns, Middle, Six2, Six1, Six0, Rest;
    PlanMember(t);
    PatternRanges(t.pattern);
    var i := t.bit / 8;
    var rest := PlanRows(i);
    BlockMember(i + 1, 0, 45, 4, t);
    AnswerIn(t, BlockList(11, 0, 124, 0) + BlockList(i + 1, 0, 45, 4), rest);
    BlockMember(11, 0, 124, 0, Answer(t));
    BlockMember(i + 1, 0, 45, 4, Answer(t));
  }

  lemma AnswerPair(t: Slot)
    requires t in Plan() && t.bit < 88 && t.bit % 8 == 2
    ensures Turn(Answer(t).bit) <= Turn(t.bit)
  {
    hide BlockList, Answer, Proper;
    var a, m, b, d := BlockList(11, 0, 124, 0), BlockList(10, 0, 45, 4), BlockList(10, 45, 75, 2), BlockList(10, 60, 90, 6);
    PlanMember(t);
    PatternRanges(t.pattern);
    BlockProper(11, 0, 124, 0);
    BlockProper(10, 0, 45, 4);
    BlockProper(10, 45, 75, 2);
    BlockProper(10, 60, 90, 6);
    BothProper(m, b);
    BothProper(a, m + b);
    BlockMember(10, 45, 75, 2, t);
    assert Plan() == (a + (m + b)) + d;
    AnswerIn(t, a + (m + b), d);
    BlockMember(11, 0, 124, 0, Answer(t));
    BlockMember(10, 0, 45, 4, Answer(t));
    BlockMember(10, 45, 75, 2, Answer(t));
  }

  /** The table's answer was visited no later than the error. */
  lemma AnswerEarly(t: Slot)
    requires t in Plan() && t.bit < 88
    ensures Turn(Answer(t).bit) <= Turn(t.bit)
  {
    hide Plan, Answer, Middle, Six2, Six1, Six0, Rest;
    PlanMember(t);
    if t.bit % 8 == 0 {
      AlignedAnswer(t);
    } else if t.bit % 8 == 4 {
      AnswerRow(t);
    } else if t.bit % 8 == 2 {
      AnswerPair(t);
    } else {
      AnswerIs(t);
      PlanMember(Answer(t));
    }
  }

  // ----- bursts with the same syndrome -----

  /** From x[1], the end of the code word, into x[2], its beginning. */
  predicate Wraps(s: Slot) {
    s.bit / 8 == 1 && Crosses(s)
  }

  /** The pattern b at bit p, across the ends of the code word, is taken for the one at bit e. */
  predicate ShadowedWrap(p: nat, e: nat, b: Byte) {
    || (p == 11 && e == 33 && b == Byte(NC, N4)) || (p == 12 && e == 67 && b == Byte(NB, N8))
    || (p == 12 && e == 34 && b == Byte(NC, N4)) || (p == 14 && e == 3 && b == Byte(NA, N0))
    || (p == 14 && e == 58 && b == Byte(NE, N0)) || (p == 14 && e == 3 && b == Byte(NF, N0))
    || (p == 14 && e == 25 && b == Byte(N8, NC)) || (p == 14 && e == 36 && b == Byte(NC, N4))
    || (p == 15 && e == 4 && b == Byte(NA, N0)) || (p == 15 && e == 81 && b == Byte(ND, N0))
    || (p == 15 && e == 26 && b == Byte(N8, NC)) || (p == 15 && e == 59 && b == Byte(ND, N4))
    || (p == 15 && e == 48 && b == Byte(NE, N4))
  }

  /** The pattern b at bit p is taken for the one at bit e, across the ends of the code word. */
  predicate ShadowedByWrap(p: nat, e: nat, b: Byte) {
    || (p == 22 && e == 11 && b == Byte(NA, NC)) || (p == 23 && e == 12 && b == Byte(N8, NC))
    || (p == 45 && e == 12 && b == Byte(NC, N8)) || (p == 46 && e == 13 && b == Byte(NC, N8))
    || (p == 47 && e == 14 && b == Byte(NC, N8)) || (p == 69 && e == 14 && b == Byte(NA, N8))
    || (p == 70 && e == 15 && b == Byte(NA, N8)) || (p == 78 && e == 12 && b == Byte(N9, N4))
  }

  /** The two families of listed bursts that are taken for another one. */
  predicate Shadow(p: nat, e: nat, b: Byte) {
    ShadowedWrap(p, e, b) || ShadowedByWrap(p, e, b)
  }

  ghost predicate Shadowed(s: Slot) {
    exists e :: Shadow(s.bit, e, s.pattern)
  }

  /** Crosses and HomeShift in closed form. */
  predicate CrossesAt(k: nat, b: Byte) {
    (k >= 3 && b.lo.b2) || (k >= 4 && b.lo.b3) || (k >= 5 && b.hi.b0) || (k >= 6 && b.hi.b1) || (k >= 7 && b.hi.b2)
  }

  lemma CrossesIs(s: Slot)
    ensures Crosses(s) <==> CrossesAt(s.bit % 8, s.pattern)
  {
    var b := s.pattern;
    assert BitOf(b, 5) == b.lo.b2 && BitOf(b, 4) == b.lo.b3 && BitOf(b, 3) == b.hi.b0 && BitOf(b, 2) == b.hi.b1;
    assert BitOf(b, 1) == b.hi.b2;
  }

  function ShiftAt(k: nat, b: Byte): nat {
    if !CrossesAt(k, b) then 0 else if !b.lo.b2 then 4 else if k < 5 then 2 else 6
  }

  predicate ListedAt(k: nat, b: Byte) {
    b != Byte(NB, NC) && (CrossesAt(k, b) ==> b != Byte(NE, N8) && !(k == 5 && b.lo.b2))
  }

  lemma ClosedForms(s: Slot)
    ensures HomeShift(s) == ShiftAt(s.bit % 8, s.pattern) && (Listed(s) <==> ListedAt(s.bit % 8, s.pattern))
  {
    hide Crosses, CrossesAt;
    CrossesIs(s);
  }

  /** The bit offset at which a burst was visited. */
  function HomeBit(s: Slot): nat {
    8 * (s.bit / 8) + HomeShift(s)
  }

  /** Of a burst that wraps and its twin, both listed, the one visited later is taken for the other. */
  ghost predicate OneShadowed(x: Slot, v: Slot) {
    || (Turn(HomeBit(x)) < Turn(HomeBit(v)) && ShadowedByWrap(v.bit, x.bit, v.pattern))
    || (Turn(HomeBit(v)) < Turn(HomeBit(x)) && ShadowedWrap(x.bit, v.bit, x.pattern))
  }

  lemma Twin1Shadowed(x: Slot, v: Slot, m: nat)
    requires x.bit == 15 && v.bit < 88 && v.pattern == x.pattern && Place(v) == 15 - x.bit + 11 * m && Twin1(x.pattern, m)
    requires Listed(x) && Listed(v)
    ensures OneShadowed(x, v)
  {
    hide HomeShift, Listed;
    if m == 1 {
      assert v.bit == 4;
    } else if m == 2 {
      assert v.bit == 81;
    } else if m == 3 {
      assert v.bit == 70;
    } else if m == 4 {
      assert v.bit == 59;
    } else if m == 5 {
      assert v.bit == 48;
    } else if m == 6 {
      assert v.bit == 37;
    } else if m == 7 {
      assert v.bit == 26;
    }
    ClosedForms(x);
    ClosedForms(v);
  }

  lemma Twin2Shadowed(x: Slot, v: Slot, m: nat)
    requires x.bit == 14 && v.bit < 88 && v.pattern == x.pattern && Place(v) == 15 - x.bit + 11 * m && Twin2(x.pattern, m)
    requires Listed(x) && Listed(v)
    ensures OneShadowed(x, v)
  {
    hide HomeShift, Listed;
    if m == 1 {
      assert v.bit == 3;
    } else if m == 3 {
      assert v.bit == 69;
    } else if m == 4 {
      assert v.bit == 58;
    } else if m == 5 {
      assert v.bit == 47;
    } else if m == 6 {
      assert v.bit == 36;
    } else if m == 7 {
      assert v.bit == 25;
    }
    ClosedForms(x);
    ClosedForms(v);
  }

  lemma Twin3Shadowed(x: Slot, v: Slot, m: nat)
    requires x.bit == 13 && v.bit < 88 && v.pattern == x.pattern && Place(v) == 15 - x.bit + 11 * m && Twin3(x.pattern, m)
    requires Listed(x) && Listed(v)
    ensures OneShadowed(x, v)
  {
    hide HomeShift, Listed;
    if m == 5 {
      assert v.bit == 46;
    } else if m == 6 {
      assert v.bit == 35;
    } else if m == 7 {
      assert v.bit == 24;
    }
    ClosedForms(x);
    ClosedForms(v);
  }

  lemma Twin4Shadowed(x: Slot, v: Slot, m: nat)
    requires x.bit == 12 && v.bit < 88 && v.pattern == x.pattern && Place(v) == 15 - x.bit + 11 * m && Twin4(x.pattern, m)
    requires Listed(x) && Listed(v)
    ensures OneShadowed(x, v)
  {
    hide HomeShift, Listed;
    if m == 2 {
      assert v.bit == 78;
    } else if m == 3 {
      assert v.bit == 67;
    } else if m == 5 {
      assert v.bit == 45;
    } else if m == 6 {
      assert v.bit == 34;
    } else if m == 7 {
      assert v.bit == 23;
    }
    ClosedForms(x);
    ClosedForms(v);
  }

  lemma Twin5Shadowed(x: Slot, v: Slot, m: nat)
    requires x.bit == 11 && v.bit < 88 && v.pattern == x.pattern && Place(v) == 15 - x.bit + 11 * m && Twin5(x.pattern, m)
    requires Listed(x) && Listed(v)
    ensures OneShadowed(x, v)
  {
    hide HomeShift, Listed;
    if m == 2 {
      assert v.bit == 77;
    } else if m == 6 {
      assert v.bit == 33;
    } else if m == 7 {
      assert v.bit == 22;
    }
    ClosedForms(x);
    ClosedForms(v);
  }

  lemma TwinsShadowed(x: Slot, v: Slot)
    requires 11 <= x.bit <= 15 && v.bit < 88 && Listed(x) && Listed(v) && Meets(x, v)
    ensures OneShadowed(x, v)
  {
    hide Listed, OneShadowed, Place, Twin1, Twin2, Twin3, Twin4, Twin5;
    var m :| 0 <= m < 8 && Place(v) == 15 - x.bit + 11 * m && Twins(x.pattern, 16 - x.bit, m);
    match x.bit
    case 15 => Twin1Shadowed(x, v, m);
    case 14 => Twin2Shadowed(x, v, m);
    case 13 => Twin3Shadowed(x, v, m);
    case 12 => Twin4Shadowed(x, v, m);
    case _ => Twin5Shadowed(x, v, m);
  }

  /** What the two lists say: a burst that wraps, a listed burst with the same syndrome, and which comes first. */
  ghost predicate Pair(x: Slot, v: Slot) {
    && IsBurst(x) && IsBurst(v) && Listed(x) && Listed(v) && 11 <= x.bit <= 15 && Wraps(x) && !Wraps(v)
    && Pattern(x.pattern) && Meets(x, v)
  }

  lemma InsideHeader(s: Slot)
    requires s.bit < 83 && Pattern(s.pattern)
    ensures IsBurst(s)
  {
    assert BitOf(s.pattern, 0) && !BitOf(s.pattern, 6) && !BitOf(s.pattern, 7);
  }

  lemma WrapPair15(p: nat, e: nat, b: Byte)
    requires ShadowedWrap(p, e, b) && p == 15
    ensures Pair(Slot(p, b), Slot(e, b)) && Turn(HomeBit(Slot(e, b))) < Turn(HomeBit(Slot(p, b)))
  {
    hide HomeShift, Listed, IsBurst, Crosses;
    var x, v := Slot(p, b), Slot(e, b);
    ClosedForms(x);
    ClosedForms(v);
    CrossesIs(x);
    CrossesIs(v);
    InsideHeader(x);
    InsideHeader(v);
    var m := (Place(v) - (15 - p)) / 11;
    assert 0 <= m < 8 && Place(v) == 15 - x.bit + 11 * m && Twins(b, 16 - p, m);
  }

  lemma WrapPair14(p: nat, e: nat, b: Byte)
    requires ShadowedWrap(p, e, b) && p == 14
    ensures Pair(Slot(p, b), Slot(e, b)) && Turn(HomeBit(Slot(e, b))) < Turn(HomeBit(Slot(p, b)))
  {
    hide HomeShift, Listed, IsBurst, Crosses;
    var x, v := Slot(p, b), Slot(e, b);
    ClosedForms(x);
    ClosedForms(v);
    CrossesIs(x);
    CrossesIs(v);
    InsideHeader(x);
    InsideHeader(v);
    var m := (Place(v) - (15 - p)) / 11;
    assert 0 <= m < 8 && Place(v) == 15 - x.bit + 11 * m && Twins(b, 16 - p, m);
  }

  lemma WrapPair11(p: nat, e: nat, b: Byte)
    requires ShadowedWrap(p, e, b) && p < 14
    ensures Pair(Slot(p, b), Slot(e, b)) && Turn(HomeBit(Slot(e, b))) < Turn(HomeBit(Slot(p, b)))
  {
    hide HomeShift, Listed, IsBurst, Crosses;
    var x, v := Slot(p, b), Slot(e, b);
    ClosedForms(x);
    ClosedForms(v);
    CrossesIs(x);
    CrossesIs(v);
    InsideHeader(x);
    InsideHeader(v);
    var m := (Place(v) - (15 - p)) / 11;
    assert 0 <= m < 8 && Place(v) == 15 - x.bit + 11 * m && Twins(b, 16 - p, m);
  }

  lemma WrapPair(p: nat, e: nat, b: Byte)
    requires ShadowedWrap(p, e, b)
    ensures Pair(Slot(p, b), Slot(e, b)) && Turn(HomeBit(Slot(e, b))) < Turn(HomeBit(Slot(p, b)))
  {
    hide Pair, Turn, HomeBit;
    if p == 15 {
      WrapPair15(p, e, b);
    } else if p == 14 {
      WrapPair14(p, e, b);
    } else {
      WrapPair11(p, e, b);
    }
  }

  lemma ByWrapPair(p: nat, e: nat, b: Byte)
    requires ShadowedByWrap(p, e, b)
    ensures Pair(Slot(e, b), Slot(p, b)) && Turn(HomeBit(Slot(e, b))) < Turn(HomeBit(Slot(p, b)))
  {
    hide HomeShift, Listed, IsBurst, Crosses;
    var x, v := Slot(e, b), Slot(p, b);
    ClosedForms(x);
    ClosedForms(v);
    CrossesIs(x);
    CrossesIs(v);
    InsideHeader(x);
    InsideHeader(v);
    var m := (Place(v) - (15 - e)) / 11;
    assert 0 <= m < 8 && Place(v) == 15 - x.bit + 11 * m && Twins(b, 16 - e, m);
  }

  // ----- normal forms of visited errors -----

  lemma ListedPattern(s: Slot)
    requires IsBurst(s) && Listed(s)
    ensures Pattern(s.pattern)
  {
  }

  lemma WrapsIs(s: Slot)
    requires IsBurst(s) && Listed(s) && Wraps(s)
    ensures 11 <= s.bit <= 15 && Others(s.pattern, 16 - s.bit) != ZeroByte
  {
    hide Crosses;
    CrossesIs(s);
  }

  lemma HomeStraddles(s: Slot, t: Slot)
    requires t.bit == HomeBit(s)
    ensures Straddles(t) <==> Wraps(s)
  {
    hide Crosses;
  }

  lemma NormalOf(a: Slot) returns (v: Slot)
    requires a in Plan() && a.bit < 88
    ensures IsBurst(v) && Listed(v) && a.bit == HomeBit(v) && ErrorAt(v) == ErrorAt(a)
  {
    hide Plan, ErrorAt, Burst, ShiftLeft, Top, BitOf, Listed, HomeShift, Climbs, IsBurst;
    PlanSlot(a);
    FitsOffset(a);
    ClimbsNone(a.pattern);
    var u := Peak(a.pattern, 0);
    Climbed(a.pattern, u);
    ErrorClimbs(a, u);
    v := Slot(a.bit + u, ShiftLeft(a.pattern, u));
    RisenBurst(a, u);
    VisitedListed(v, a);
  }

  lemma RisenBurst(a: Slot, u: nat)
    requires a.bit <= 80 && u < 8 && Burst(ShiftLeft(a.pattern, u)) && Top(ShiftLeft(a.pattern, u))
    ensures IsBurst(Slot(a.bit + u, ShiftLeft(a.pattern, u)))
  {
    hide Burst, ShiftLeft, Top, BitOf;
    var b := ShiftLeft(a.pattern, u);
    BurstBits(b);
    forall j | 1 <= j < 6 && a.bit + u + j >= 88
      ensures !BitOf(b, j)
    {
      LeftBit(a.pattern, u, j);
      BeyondByte(a.pattern, j + u);
    }
  }

  lemma BurstBits(b: Byte)
    requires Burst(b) && Top(b)
    ensures BitOf(b, 0) && !BitOf(b, 6) && !BitOf(b, 7)
  {
  }

  // ----- equal syndromes -----

  lemma WrapsApart(t: Slot, s: Slot, a: Slot, v: Slot)
    requires IsBurst(s) && Listed(s) && Wraps(s) && Fits(t) && Straddles(t) && ErrorAt(t) == ErrorAt(s)
    requires IsBurst(v) && Listed(v) && Wraps(v) && Fits(a) && Straddles(a) && ErrorAt(a) == ErrorAt(v)
    requires Syndrome(ErrorAt(t)) == Syndrome(ErrorAt(a)) && s.bit <= v.bit
    ensures s == v
  {
    hide Syndrome, ErrorAt, Fits, Straddles, IsBurst, Listed, Wraps, Iterate, Wrapped, FoldC, FoldQ, Skew, InsC, RotN, Burst,
         Top, Pattern, Others;
    FitsOffset(t);
    WrapsIs(s);
    WrapsIs(v);
    ListedPattern(s);
    ListedPattern(v);
    PatternIs(s.pattern);
    PatternIs(v.pattern);
    WrapSyndrome(t, s);
    WrapSyndrome(a, v);
    var w := Syndrome(ErrorAt(t));
    var n := v.bit - s.bit;
    IterateAdd(w, s.bit - 8, n);
    WrappedResidues(s.pattern, 16 - s.bit);
    WrappedResidues(v.pattern, 16 - v.bit);
    FoldCIterate(Wrapped(s.pattern, 16 - s.bit), n);
    RotDistinct(s.pattern, v.pattern, n);
  }

  /** Two visited errors with the same syndrome are the same, or one of them wraps and the other is its twin. */
  lemma SameSyndrome(t: Slot, s: Slot, a: Slot, v: Slot)
    requires t in Plan() && IsBurst(s) && Listed(s) && t.bit < 88 && t.bit == HomeBit(s) && ErrorAt(t) == ErrorAt(s)
    requires a in Plan() && IsBurst(v) && Listed(v) && a.bit < 88 && a.bit == HomeBit(v) && ErrorAt(a) == ErrorAt(v)
    requires Syndrome(ErrorAt(t)) == Syndrome(ErrorAt(a))
    ensures s == v || (Wraps(s) && !Wraps(v) && Meets(s, v)) || (Wraps(v) && !Wraps(s) && Meets(v, s))
  {
    hide Syndrome, ErrorAt, Fits, Straddles, Listed, Wraps, Meets, HomeBit, Plan, Pattern, Others, BitOf;
    PlanSlot(t);
    PlanSlot(a);
    HomeStraddles(s, t);
    HomeStraddles(v, a);
    ListedPattern(s);
    ListedPattern(v);
    if Wraps(s) && Wraps(v) {
      if s.bit <= v.bit {
        WrapsApart(t, s, a, v);
      } else {
        WrapsApart(a, v, t, s);
      }
    } else if Wraps(s) {
      WrapsIs(s);
      MeetsExactly(t, s, a, v);
    } else if Wraps(v) {
      WrapsIs(v);
      MeetsExactly(a, v, t, s);
    } else {
      BurstsDistinct(t, a);
      NormalUnique(s, v);
    }
  }

  // ----- exactly when -----

  lemma HomeAt(s: Slot)
    requires IsBurst(s) && Listed(s)
    ensures Home(s) in Plan() && Home(s).bit < 88 && Home(s).bit == HomeBit(s) && ErrorAt(Home(s)) == ErrorAt(s)
  {
    hide Plan, ErrorAt, IsBurst, Listed, HomeShift;
    ListedVisited(s);
  }

  /** If the table does not answer with the burst itself, the burst is on one of the lists. */
  lemma MissedIsShadowed(s: Slot)
    requires IsBurst(s) && Listed(s) && Home(s).bit < 88
    requires Answer(Home(s)).bit < 88 && ErrorAt(Answer(Home(s))) != ErrorAt(Home(s))
    ensures Shadowed(s)
  {
    hide Plan, ErrorAt, IsBurst, Listed, Home, HomeBit, Turn, Answer, Syndrome, Wraps, Meets, ShadowedWrap, ShadowedByWrap;
    HomeAt(s);
    var t := Home(s);
    AnswerIs(t);
    AnswerEarly(t);
    var a := Answer(t);
    var v := NormalOf(a);
    SameSyndrome(t, s, a, v);
    if Wraps(s) {
      WrapsIs(s);
      BurstBit(v);
      TwinsShadowed(s, v);
      assert Shadow(s.bit, v.bit, s.pattern);
    } else {
      WrapsIs(v);
      BurstBit(s);
      TwinsShadowed(v, s);
      assert Shadow(s.bit, v.bit, s.pattern);
    }
  }

  lemma BurstBit(s: Slot)
    requires IsBurst(s)
    ensures s.bit < 88
  {
  }

  /** A burst on one of the lists has the syndrome of one visited before it. */
  lemma ShadowedIsMissed(s: Slot)
    requires IsBurst(s) && Listed(s) && Shadowed(s)
    ensures Home(s).bit < 88 && Home(s) in Plan()
    ensures Answer(Home(s)).bit < 88 && ErrorAt(Answer(Home(s))) != ErrorAt(Home(s))
  {
    hide Plan, ErrorAt, IsBurst, Listed, Home, HomeBit, Turn, Answer, Syndrome, Wraps, Meets, ShadowedWrap, ShadowedByWrap,
         Fits, Straddles, Pattern, Others;
    HomeAt(s);
    var e :| Shadow(s.bit, e, s.pattern);
    var q := Slot(e, s.pattern);
    if ShadowedWrap(s.bit, e, s.pattern) {
      WrapPair(s.bit, e, s.pattern);
      HomeAt(q);
      PairSyndrome(s, q);
    } else {
      ByWrapPair(s.bit, e, s.pattern);
      HomeAt(q);
      PairSyndrome(q, s);
    }
    AnswerIs(Home(s));
    AnswerIs(Home(q));
    AnswerEarly(Home(q));
    if ErrorAt(Answer(Home(s))) == ErrorAt(Home(s)) {
      VisitedHome(s, Answer(Home(s)));
    }
  }

  lemma VisitedHome(s: Slot, t: Slot)
    requires IsBurst(s) && t in Plan() && t.bit < 88 && ErrorAt(t) == ErrorAt(s)
    ensures t.bit == HomeBit(s)
  {
    hide Plan, ErrorAt, IsBurst, HomeShift;
    VisitedListed(s, t);
  }

  lemma PairSyndrome(x: Slot, v: Slot)
    requires Pair(x, v)
    ensures Home(x).bit < 88 && Home(v).bit < 88
    ensures Syndrome(ErrorAt(Home(x))) == Syndrome(ErrorAt(Home(v)))
  {
    hide Plan, ErrorAt, IsBurst, Listed, Home, HomeBit, Syndrome, Wraps, Meets, Fits, Straddles, Pattern, Others;
    HomeAt(x);
    HomeAt(v);
    PlanSlot(Home(x));
    PlanSlot(Home(v));
    HomeStraddles(x, Home(x));
    HomeStraddles(v, Home(v));
    WrapsIs(x);
    ListedPattern(v);
    BurstBit(v);
    MeetsExactly(Home(x), x, Home(v), v);
  }

  lemma AppliedSame(c: seq<Byte>, s: Slot, t: Slot)
    requires |c| >= 12 && s.bit < 88 && t.bit < 88 && ErrorAt(s) == ErrorAt(t)
    ensures Applied(c, s) == Applied(c, t)
  {
    hide ErrorAt;
  }

  /** An error that was not visited is not undone. */
  lemma UnvisitedStays(c: seq<Byte>, s: Slot, y: seq<Byte>, ok: bool)
    requires |c| >= 12 && IsBurst(s) && !Listed(s) && Corrected(Applied(c, s), y, ok)
    ensures y != c
  {
    hide Plan, ErrorAt, Listed, Applied, Syndrome, FirstWith, BitOf;
    var x := Applied(c, s);
    PlanProper();
    CorrectedIs(x, y, ok);
    FirstWithSyndrome(Plan(), Syndrome(x));
    if y == x {
      ErrorBits(s, s.bit);
      AppliedTwice(c, s, Empty);
      NoError(x);
      ErrorBits(Empty, s.bit);
      NoBit(s.bit);
    } else {
      var a := FirstWith(Plan(), Syndrome(x));
      AppliedTwice(c, s, a);
      if y == c {
        VisitedListed(s, a);
      }
    }
  }

  lemma NoError(x: seq<Byte>)
    requires |x| >= 12
    ensures Empty.bit == 0 && Empty.pattern == ZeroByte && Applied(x, Empty) == x
  {
    hide ShiftLeft, ShiftRight;
    var e := ErrorAt(Empty);
    ShiftRightZero(ZeroByte);
    ShiftLeftEight(ZeroByte);
    forall i | 0 <= i < 12
      ensures e[i] == ZeroByte && XorByte(x[i], e[i]) == x[i]
    {
      assert e[i] == ErrorByte(Empty, i);
    }
  }

  /** For every valid header and every burst of at most six of its 88 bits: the header is restored if and only if the
      burst is listed and not on one of the two lists of shadowed ones. A listed burst is always accepted. */
  lemma BurstUndoneExactly(c: seq<Byte>, s: Slot, y: seq<Byte>, ok: bool)
    requires |c| >= 12 && Syndrome(c) == Zero && IsBurst(s) && Corrected(Applied(c, s), y, ok)
    ensures y == c <==> Listed(s) && !Shadowed(s)
    ensures Listed(s) ==> ok
  {
    hide Plan, ErrorAt, IsBurst, Listed, Home, Answer, Syndrome, Shadowed, Applied, Corrected;
    BurstBit(s);
    if Listed(s) {
      HomeAt(s);
      AppliedSame(c, s, Home(s));
      UndoneExactly(c, Home(s), y, ok);
      if Shadowed(s) {
        ShadowedIsMissed(s);
      } else if ErrorAt(Answer(Home(s))) != ErrorAt(Home(s)) {
        MissedIsShadowed(s);
      }
    } else {
      UnvisitedStays(c, s, y, ok);
    }
  }

  /** Not every short burst is undone: bits 14 and 16 of a header, wrong together, never are. */
  lemma TwoBitsLost(c: seq<Byte>, y: seq<Byte>, ok: bool)
    requires |c| >= 12 && Syndrome(c) == Zero && Corrected(Applied(c, Slot(14, Byte(NA, N0))), y, ok)
    ensures ok && y != c
  {
    hide Syndrome, Corrected, Applied, Listed, IsBurst;
    var s := Slot(14, Byte(NA, N0));
    InsideHeader(s);
    WrapPair(14, 3, s.pattern);
    assert Shadow(s.bit, 3, s.pattern);
    BurstUndoneExactly(c, s, y, ok);
  }

  // ----- errors inside one byte -----

  /** The set bits span at most six places. */
  predicate Narrow(p: Byte) {
    !(BitOf(p, 0) && (BitOf(p, 6) || BitOf(p, 7))) && !(BitOf(p, 1) && BitOf(p, 7))
  }

  /** For every valid header, every byte of it and every error of at most six bits in that byte: the header is restored if
      and only if the error is none of 0x2F, 0x5E and 0xBC. */
  lemma ByteUndoneExactly(c: seq<Byte>, i: nat, p: Byte, y: seq<Byte>, ok: bool)
    requires |c| >= 12 && Syndrome(c) == Zero && i < 11 && p != ZeroByte && Narrow(p)
    requires Corrected(c[i := XorByte(c[i], p)], y, ok)
    ensures ok && y == c <==> p != Byte(N2, NF) && p != Byte(N5, NE) && p != Byte(NB, NC)
  {
    hide Plan, ErrorAt, Syndrome, Applied, Corrected, BitOf, XorByte, Listed, Narrow;
    var t := Slot(8 * i, p);
    ByteApplied(c, i, p);
    if p != Byte(N2, NF) && p != Byte(N5, NE) && p != Byte(NB, NC) {
      NarrowListed(p);
      PlanMember(t);
      SingleByteUndone(c, t, y, ok);
    } else {
      var u := if p == Byte(N2, NF) then 2 else if p == Byte(N5, NE) then 1 else 0;
      var s := Slot(8 * i + u, Byte(NB, NC));
      WideMoved(p, u);
      MovedError(s, t);
      AppliedSame(c, s, t);
      WideBurst(i, u);
      UnvisitedStays(c, s, y, ok);
    }
  }

  lemma NarrowListed(p: Byte)
    requires p != ZeroByte && Narrow(p) && p != Byte(N2, NF) && p != Byte(N5, NE) && p != Byte(NB, NC)
    ensures Middle(p) || Six2(p) || Six1(p) || Six0(p) || Rest(p)
  {
  }

  lemma WideMoved(p: Byte, u: nat)
    requires u < 3 && p == if u == 2 then Byte(N2, NF) else if u == 1 then Byte(N5, NE) else Byte(NB, NC)
    ensures Moved(p, Byte(NB, NC), u)
  {
  }

  lemma WideBurst(i: nat, u: nat)
    requires i < 11 && u < 3
    ensures var s := Slot(8 * i + u, Byte(NB, NC)); IsBurst(s) && !Listed(s)
  {
  }

  lemma ByteApplied(c: seq<Byte>, i: nat, p: Byte)
    requires |c| >= 12 && i < 11
    ensures Applied(c, Slot(8 * i, p)) == c[i := XorByte(c[i], p)]
  {
    hide ShiftLeft, ShiftRight;
    var s := Slot(8 * i, p);
    ShiftRightZero(p);
    ShiftLeftEight(p);
    forall k | 0 <= k < 12
      ensures ErrorAt(s)[k] == (if k == i then p else ZeroByte) && XorByte(c[k], ZeroByte) == c[k]
    {
      assert ErrorAt(s)[k] == ErrorByte(s, k);
    }
  }
}
