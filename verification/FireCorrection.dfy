/** What check_and_correct_6bits does with the errors it knows. */
module FireCorrection {
  import opened Crc
  import opened FireCode
  import opened FireResidue
  import opened FireBursts

  // ----- the plan holds bursts only -----

  lemma P0Bursts()
    ensures forall b :: b in P0 ==> Burst(b)
  {
  }

  lemma P1Bursts()
    ensures forall b :: b in P1 ==> Burst(b)
  {
  }

  lemma P2Bursts()
    ensures forall b :: b in P2 ==> Burst(b)
  {
  }

  lemma P3Bursts()
    ensures forall b :: b in P3 ==> Burst(b)
  {
  }

  lemma P4Bursts()
    ensures forall b :: b in P4 ==> Burst(b)
  {
  }

  lemma P5Bursts()
    ensures forall b :: b in P5 ==> Burst(b)
  {
  }

  lemma P6Bursts()
    ensures forall b :: b in P6 ==> Burst(b)
  {
  }

  lemma P7Bursts()
    ensures forall b :: b in P7 ==> Burst(b)
  {
  }

  lemma P8Bursts()
    ensures forall b :: b in P8 ==> Burst(b)
  {
  }

  lemma PatternsBurst(j: nat)
    requires j < 124
    ensures Burst(Patterns()[j])
  {
    P0Bursts();
    P1Bursts();
    P2Bursts();
    P3Bursts();
    P4Bursts();
    P5Bursts();
    P6Bursts();
    P7Bursts();
    P8Bursts();
    hide Burst, P0, P1, P2, P3, P4, P5, P6, P7, P8;
    assert Patterns()[j] in Patterns();
  }

  ghost predicate AllFit(list: seq<Slot>) {
    forall k :: 0 <= k < |list| ==> Fits(list[k])
  }

  lemma RowFits(i: nat, lo: nat, hi: nat, sh: nat)
    requires lo <= hi <= 124 && sh % 2 == 0 && 8 * i + sh <= 80
    ensures AllFit(RowList(i, lo, hi, sh, hi - lo))
  {
    hide Patterns, Burst;
    var r := RowList(i, lo, hi, sh, hi - lo);
    forall k | 0 <= k < |r|
      ensures Fits(r[k])
    {
      assert r[k] == Slot(8 * i + sh, Patterns()[lo + k]);
      PatternsNonZero(lo + k);
      PatternsBurst(lo + k);
    }
  }

  lemma {:induction false} BlockFits(rows: nat, lo: nat, hi: nat, sh: nat)
    requires lo <= hi <= 124 && sh % 2 == 0 && 8 * rows + sh <= 88
    ensures AllFit(BlockList(rows, lo, hi, sh))
  {
    hide RowList, Fits;
    if rows > 0 {
      BlockFits(rows - 1, lo, hi, sh);
      RowFits(rows - 1, lo, hi, sh);
    }
  }

  lemma PlanFits()
    ensures AllFit(Plan())
  {
    hide BlockList, Fits;
    BlockFits(11, 0, 124, 0);
    BlockFits(10, 0, 45, 4);
    BlockFits(10, 45, 75, 2);
    BlockFits(10, 60, 90, 6);
  }

  lemma PlanSlot(s: Slot)
    requires s in Plan()
    ensures Fits(s) && s.bit < 88
  {
    hide Plan;
    PlanFits();
  }

  // ----- correction -----

  /** The table's answer to the syndrome of an error. */
  ghost function Answer(s: Slot): Slot
    requires s.bit < 88
  {
    PlanProper();
    FirstWith(Plan(), Syndrome(ErrorAt(s)))
  }

  lemma AnswerIs(s: Slot)
    requires s in Plan()
    ensures s.bit < 88 && Proper(Plan())
    ensures Answer(s) in Plan() && Answer(s).bit < 88 && Answer(s) != Empty
    ensures Answer(s) == FirstWith(Plan(), Syndrome(ErrorAt(s)))
    ensures Syndrome(ErrorAt(Answer(s))) == Syndrome(ErrorAt(s))
  {
    hide Plan, Syndrome, ErrorAt, FirstWith;
    PlanProper();
    FirstWithSyndrome(Plan(), Syndrome(ErrorAt(s)));
  }

  /** Any error of the plan on a valid header is accepted, and it is undone exactly if and only if the first error of
      the plan with its syndrome is the same error. */
  lemma UndoneExactly(c: seq<Byte>, s: Slot, y: seq<Byte>, ok: bool)
    requires |c| >= 12 && Syndrome(c) == Zero && s in Plan() && s.bit < 88
    requires Corrected(Applied(c, s), y, ok)
    ensures ok && Answer(s).bit < 88
    ensures y == c <==> ErrorAt(Answer(s)) == ErrorAt(s)
  {
    hide *;
    AnswerIs(s);
    PlanSlot(s);
    SyndromeNonZero(s);
    AppliedSyndrome(c, s);
    XorComm(Zero, Syndrome(ErrorAt(s)));
    XorZero(Syndrome(ErrorAt(s)));
    CorrectedIs(Applied(c, s), y, ok);
    AppliedTwice(c, s, Answer(s));
  }

  /** A burst that does not straddle the ends of the code word is undone unless the table answers with one that does. */
  lemma BurstUndone(c: seq<Byte>, s: Slot, y: seq<Byte>, ok: bool)
    requires |c| >= 12 && Syndrome(c) == Zero && s in Plan() && s.bit < 88 && !Straddles(s)
    requires Corrected(Applied(c, s), y, ok)
    ensures ok && (y == c || Straddles(Answer(s)))
  {
    hide *;
    AnswerIs(s);
    PlanSlot(s);
    PlanSlot(Answer(s));
    UndoneExactly(c, s, y, ok);
    if !Straddles(Answer(s)) {
      BurstsDistinct(s, Answer(s));
    }
  }

  /** The table answers an error inside one byte with an error inside one byte. */
  lemma AlignedAnswer(s: Slot)
    requires s in Plan() && s.bit < 88 && s.bit % 8 == 0
    ensures Answer(s).bit % 8 == 0
  {
    hide BlockList, Syndrome, ErrorAt, FirstWith;
    var a := BlockList(11, 0, 124, 0);
    var b := BlockList(10, 0, 45, 4) + (BlockList(10, 45, 75, 2) + BlockList(10, 60, 90, 6));
    assert Plan() == a + b;
    BlockProper(11, 0, 124, 0);
    BlockProper(10, 0, 45, 4);
    BlockProper(10, 45, 75, 2);
    BlockProper(10, 60, 90, 6);
    assert s in a;
    FirstWithSyndrome(a, Syndrome(ErrorAt(s)));
    FirstWithPrefix(a, b, Syndrome(ErrorAt(s)));
  }

  /** Every error of the plan inside one byte is undone exactly. */
  lemma SingleByteUndone(c: seq<Byte>, s: Slot, y: seq<Byte>, ok: bool)
    requires |c| >= 12 && Syndrome(c) == Zero && s in Plan() && s.bit < 88 && s.bit % 8 == 0
    requires Corrected(Applied(c, s), y, ok)
    ensures ok && y == c
  {
    hide *;
    AlignedAnswer(s);
    StraddlesIs(s);
    StraddlesIs(Answer(s));
    BurstUndone(c, s, y, ok);
  }

  lemma StraddlesIs(s: Slot)
    ensures s.bit % 8 == 0 ==> !Straddles(s)
  {
  }

  // ----- the two residues -----

  lemma ResidueKernel(w: Word)
    requires FoldC(w) == FoldC(Zero) && FoldQ(w) == QZero
    ensures w == Zero
  {
    hide XorQ;
    assert w.n3 == Nibble(w.n1.b0, w.n0.b3, w.n0.b2, w.n0.b1);
    KernelParts(w.n1.b0, w.n0);
  }

  lemma KernelParts(top: bool, n: Nibble)
    requires var w := Word(Nibble(top, n.b3, n.b2, n.b1), Nibble(n.b0, false, false, false),
                           Nibble(false, false, false, top), n);
             FoldQ(w) == QZero
    ensures !top && n == Zero4
  {
  }

  /** The two residues determine a register. */
  lemma ResiduesDecide(v: Word, w: Word)
    requires FoldC(v) == FoldC(w) && FoldQ(v) == FoldQ(w)
    ensures v == w
  {
    hide *;
    FoldCXor(v, w);
    FoldQXor(v, w);
    SelfCancels(FoldC(v), FoldQ(v));
    ResidueKernel(Xor(v, w));
    XorIsZero(v, w);
  }

  lemma SelfCancels(c: Cyc, q: Quint)
    ensures XorC(c, c) == FoldC(Zero) && XorQ(q, q) == QZero
  {
  }
}
