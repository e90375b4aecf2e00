/** Which bursts the syndrome table is filled with, told from their bits alone. */
module FireListed {
  import opened Crc
  import opened CrcTable
  import opened FireCode
  import opened FireBits

  // ----- the array of patterns -----

  /** In both halves of the byte, at most five bits wide, and not 11101. */
  predicate Middle(q: Byte) {
    && q.hi != Zero4 && q.lo != Zero4
    && (q.hi.b1 || q.hi.b2 || q.hi.b3 ==> !q.lo.b0) && (q.hi.b2 || q.hi.b3 ==> !q.lo.b1) && (q.hi.b3 ==> !q.lo.b2)
    && q != Byte(N1, ND) && q != Byte(N3, NA) && q != Byte(N7, N4) && q != Byte(NE, N8)
  }

  /** Exactly six bits wide, from bit j on, and not 101111. */
  predicate Six2(q: Byte) {
    !q.hi.b3 && !q.hi.b2 && q.hi.b1 && q.lo.b0 && q != Byte(N2, NF)
  }

  predicate Six1(q: Byte) {
    !q.hi.b3 && q.hi.b2 && q.lo.b1 && !q.lo.b0 && q != Byte(N5, NE)
  }

  predicate Six0(q: Byte) {
    q.hi.b3 && q.lo.b2 && !q.lo.b1 && !q.lo.b0 && q != Byte(NB, NC)
  }

  /** Inside half a byte or 11101. */
  predicate Rest(q: Byte) {
    || (q.hi == Zero4) != (q.lo == Zero4)
    || q == Byte(N1, ND) || q == Byte(N3, NA) || q == Byte(N7, N4) || q == Byte(NE, N8)
  }

  lemma MiddleLow(q: Byte)
    requires Middle(q) && !q.hi.b3 && !q.hi.b2
    ensures q in P0 || q in P1
  {
  }

  lemma MiddleHigh(q: Byte)
    requires Middle(q) && (q.hi.b3 || q.hi.b2)
    ensures q in P1 || q in P2
  {
  }

  lemma P0Middle(q: Byte)
    requires q in P0
    ensures Middle(q)
  {
  }

  lemma P1Middle(q: Byte)
    requires q in P1
    ensures Middle(q)
  {
  }

  lemma P2Middle(q: Byte)
    requires q in P2
    ensures Middle(q)
  {
  }

  lemma MiddleListed(q: Byte)
    ensures Middle(q) <==> q in P0 || q in P1 || q in P2
  {
    hide Middle, P0, P1, P2;
    if Middle(q) {
      if q.hi.b3 || q.hi.b2 {
        MiddleHigh(q);
      } else {
        MiddleLow(q);
      }
    }
    if q in P0 {
      P0Middle(q);
    }
    if q in P1 {
      P1Middle(q);
    }
    if q in P2 {
      P2Middle(q);
    }
  }

  lemma Six2Listed(q: Byte)
    ensures Six2(q) <==> q in P3
  {
  }

  lemma Six1Listed(q: Byte)
    ensures Six1(q) <==> q in P4
  {
  }

  lemma Six0Listed(q: Byte)
    ensures Six0(q) <==> q in P5
  {
  }

  lemma RestListed(q: Byte)
    ensures Rest(q) <==> q in P6 || q in P7 || q in P8
  {
  }

  /** The whole array, and the parts used for bursts across two bytes. */
  lemma PatternRanges(q: Byte)
    ensures q in Patterns()[0..124] <==> Middle(q) || Six2(q) || Six1(q) || Six0(q) || Rest(q)
    ensures q in Patterns()[0..45] <==> Middle(q)
    ensures q in Patterns()[45..75] <==> Six2(q) || Six1(q)
    ensures q in Patterns()[60..90] <==> Six1(q) || Six0(q)
  {
    hide Middle, Six2, Six1, Six0, Rest;
    MiddleListed(q);
    Six2Listed(q);
    Six1Listed(q);
    Six0Listed(q);
    RestListed(q);
    Lengths();
    hide P0, P1, P2, P3, P4, P5, P6, P7, P8;
    assert Patterns()[0..124] == Patterns();
    assert Patterns()[0..45] == P0 + P1 + P2;
    assert Patterns()[45..75] == P3 + P4;
    assert Patterns()[60..90] == P4 + P5;
  }

  lemma Lengths()
    ensures |P0| == |P1| == |P2| == |P3| == |P4| == |P5| == |P6| == |P7| == 15 && |P8| == 4
  {
  }

  // ----- the visited errors -----

  lemma RowMember(i: nat, lo: nat, hi: nat, sh: nat, t: Slot)
    requires lo <= hi <= 124 && sh < 8
    ensures t in RowList(i, lo, hi, sh, hi - lo) <==> t.bit == 8 * i + sh && t.pattern in Patterns()[lo..hi]
  {
    hide Patterns;
    var r := RowList(i, lo, hi, sh, hi - lo);
    if t.bit == 8 * i + sh && t.pattern in Patterns()[lo..hi] {
      var j :| 0 <= j < hi - lo && Patterns()[lo..hi][j] == t.pattern;
      assert r[j] == t;
    }
    if t in r {
      var j :| 0 <= j < |r| && r[j] == t;
      assert Patterns()[lo..hi][j] == t.pattern;
    }
  }

  lemma {:induction false} BlockMember(rows: nat, lo: nat, hi: nat, sh: nat, t: Slot)
    requires lo <= hi <= 124 && sh < 8
    ensures t in BlockList(rows, lo, hi, sh) <==>
            t.bit % 8 == sh && t.bit / 8 < rows && t.pattern in Patterns()[lo..hi]
  {
    hide Patterns, RowList;
    if rows > 0 {
      BlockMember(rows - 1, lo, hi, sh, t);
      RowMember(rows - 1, lo, hi, sh, t);
    }
  }

  /** The visited errors: in one byte, or in the two bytes from a row on. */
  lemma PlanMember(t: Slot)
    ensures t in Plan() <==>
            || (t.bit % 8 == 0 && t.bit / 8 < 11 &&
                (Middle(t.pattern) || Six2(t.pattern) || Six1(t.pattern) || Six0(t.pattern) || Rest(t.pattern)))
            || (t.bit % 8 == 4 && t.bit / 8 < 10 && Middle(t.pattern))
            || (t.bit % 8 == 2 && t.bit / 8 < 10 && (Six2(t.pattern) || Six1(t.pattern)))
            || (t.bit % 8 == 6 && t.bit / 8 < 10 && (Six1(t.pattern) || Six0(t.pattern)))
  {
    hide Middle, Six2, Six1, Six0, Rest, BlockList, Patterns;
    PatternRanges(t.pattern);
    BlockMember(11, 0, 124, 0, t);
    BlockMember(10, 0, 45, 4, t);
    BlockMember(10, 45, 75, 2, t);
    BlockMember(10, 60, 90, 6, t);
  }

  // ----- told from the bits -----

  /** The burst reaches into the next byte. */
  predicate Crosses(s: Slot) {
    exists j :: 1 <= j < 6 && s.bit % 8 + j >= 8 && BitOf(s.pattern, j)
  }

  /** Not 101111; and across two bytes not 11101, and not six bits wide with three in each. */
  predicate Listed(s: Slot) {
    && s.pattern != Byte(NB, NC)
    && (Crosses(s) ==> s.pattern != Byte(NE, N8) && !(s.bit % 8 == 5 && BitOf(s.pattern, 5)))
  }

  /** q is b moved down by u places, without loss. */
  ghost predicate Moved(q: Byte, b: Byte, u: nat) {
    && (forall j :: 0 <= j < 8 ==> BitOf(q, j) == (u <= j && BitOf(b, j - u)))
    && (forall j :: 0 <= j < 8 && BitOf(b, j) ==> j + u < 8)
  }

  lemma SameError(s: Slot, t: Slot)
    requires s.bit < 88 && t.bit < 88
    requires forall p :: 0 <= p < 96 ==> HeaderBit(ErrorAt(s), p) == HeaderBit(ErrorAt(t), p)
    ensures ErrorAt(s) == ErrorAt(t)
  {
    hide BitOf, ErrorAt;
    forall i | 0 <= i < 12
      ensures ErrorAt(s)[i] == ErrorAt(t)[i]
    {
      forall j | 0 <= j < 8
        ensures BitOf(ErrorAt(s)[i], j) == BitOf(ErrorAt(t)[i], j)
      {
        assert HeaderBit(ErrorAt(s), 8 * i + j) == HeaderBit(ErrorAt(t), 8 * i + j);
      }
      SameBits(ErrorAt(s)[i], ErrorAt(t)[i]);
    }
  }

  lemma MovedError(s: Slot, t: Slot)
    requires s.bit < 88 && t.bit <= s.bit && Moved(t.pattern, s.pattern, s.bit - t.bit)
    ensures ErrorAt(s) == ErrorAt(t)
  {
    hide BitOf, ErrorAt;
    forall p | 0 <= p < 96
      ensures HeaderBit(ErrorAt(s), p) == HeaderBit(ErrorAt(t), p)
    {
      ErrorBits(s, p);
      ErrorBits(t, p);
      if t.bit + 8 <= p {
        BeyondByte(t.pattern, p - t.bit);
        if s.bit <= p < s.bit + 8 {
          assert BitOf(s.pattern, p - s.bit) ==> p - s.bit + (s.bit - t.bit) < 8;
        } else if s.bit + 8 <= p {
          BeyondByte(s.pattern, p - s.bit);
        }
      } else if t.bit <= p {
        assert BitOf(t.pattern, p - t.bit) == (s.bit - t.bit <= p - t.bit && BitOf(s.pattern, p - t.bit - (s.bit - t.bit)));
      }
    }
    SameError(s, t);
  }

  lemma ErrorMoved(s: Slot, t: Slot)
    requires s.bit < 88 && t.bit < 88 && BitOf(s.pattern, 0) && ErrorAt(s) == ErrorAt(t)
    ensures t.bit <= s.bit < t.bit + 8 && Moved(t.pattern, s.pattern, s.bit - t.bit)
  {
    hide BitOf, ErrorAt;
    ErrorBits(s, s.bit);
    ErrorBits(t, s.bit);
    if t.bit + 8 <= s.bit {
      BeyondByte(t.pattern, s.bit - t.bit);
    }
    forall j | 0 <= j < 8
      ensures BitOf(t.pattern, j) == (s.bit - t.bit <= j && BitOf(s.pattern, j - (s.bit - t.bit)))
    {
      ErrorBits(s, t.bit + j);
      ErrorBits(t, t.bit + j);
    }
    forall j | 0 <= j < 8 && BitOf(s.pattern, j)
      ensures j + (s.bit - t.bit) < 8
    {
      if s.bit + j < 96 {
        ErrorBits(s, s.bit + j);
        ErrorBits(t, s.bit + j);
      }
      if j + (s.bit - t.bit) >= 8 {
        BeyondByte(t.pattern, s.bit + j - t.bit);
      }
    }
  }

  /** The offset in its byte at which a listed burst was visited. */
  function HomeShift(s: Slot): nat {
    if !Crosses(s) then 0 else if !BitOf(s.pattern, 5) then 4 else if s.bit % 8 < 5 then 2 else 6
  }

  lemma MovedBits(q: Byte, b: Byte, u: nat)
    requires Moved(q, b, u) && u < 8
    ensures BitOf(q, 0) == (u == 0 && BitOf(b, 0)) && BitOf(q, 1) == (u <= 1 && BitOf(b, 1 - u))
    ensures BitOf(q, 2) == (u <= 2 && BitOf(b, 2 - u)) && BitOf(q, 3) == (u <= 3 && BitOf(b, 3 - u))
    ensures BitOf(q, 4) == (u <= 4 && BitOf(b, 4 - u)) && BitOf(q, 5) == (u <= 5 && BitOf(b, 5 - u))
    ensures BitOf(q, 6) == (u <= 6 && BitOf(b, 6 - u)) && BitOf(q, 7) == BitOf(b, 7 - u)
    ensures (BitOf(b, 1) ==> u < 7) && (BitOf(b, 2) ==> u < 6) && (BitOf(b, 3) ==> u < 5) && (BitOf(b, 4) ==> u < 4)
    ensures (BitOf(b, 5) ==> u < 3) && (BitOf(b, 6) ==> u < 2) && (BitOf(b, 7) ==> u < 1)
  {
    hide BitOf;
  }

  /** A pattern over both halves, seen from its first bit. */
  lemma MiddleMoved(q: Byte, b: Byte, u: nat)
    requires Moved(q, b, u) && u < 8 && BitOf(b, 0) && Middle(q)
    ensures u < 4 && !BitOf(b, 5) && b != Byte(NE, N8)
    ensures exists j :: 1 <= j < 6 && 4 + u + j >= 8 && BitOf(b, j)
  {
    MovedBits(q, b, u);
    assert BitOf(b, 1) || BitOf(b, 2) || BitOf(b, 3) || BitOf(b, 4);
  }

  /** Six bits, seen from the first one. */
  lemma SixMoved(q: Byte, b: Byte, u: nat)
    requires Moved(q, b, u) && u < 8 && BitOf(b, 0) && (Six2(q) || Six1(q) || Six0(q))
    ensures BitOf(b, 5) && u == if Six2(q) then 2 else if Six1(q) then 1 else 0
    ensures b != Byte(NB, NC)
  {
    MovedBits(q, b, u);
  }

  lemma InnerMoved(q: Byte, b: Byte, u: nat)
    requires Moved(q, b, u) && u < 8 && BitOf(b, 0) && (Middle(q) || Six2(q) || Six1(q) || Six0(q) || Rest(q))
    ensures b != Byte(NB, NC)
  {
    MovedBits(q, b, u);
  }

  /** A burst that was visited is listed, and was visited at its home. */
  lemma VisitedListed(s: Slot, t: Slot)
    requires IsBurst(s) && t in Plan() && t.bit < 88 && ErrorAt(t) == ErrorAt(s)
    ensures Listed(s) && t.bit == 8 * (s.bit / 8) + HomeShift(s)
  {
    hide BitOf, ErrorAt, Plan, Moved, Middle, Six2, Six1, Six0, Rest;
    PlanMember(t);
    ErrorMoved(s, t);
    var q, b, u, sh := t.pattern, s.pattern, s.bit - t.bit, t.bit % 8;
    if sh == 0 {
      InnerMoved(q, b, u);
      InsideByte(q, b, u);
      assert s.bit / 8 == t.bit / 8 && s.bit % 8 == u;
    } else if sh == 4 {
      MiddleMoved(q, b, u);
      var j :| 1 <= j < 6 && 4 + u + j >= 8 && BitOf(b, j);
      assert s.bit / 8 == t.bit / 8 && s.bit % 8 == 4 + u;
      NotSix(b);
    } else {
      SixMoved(q, b, u);
      SixApart(q, u, sh);
      NotE8(b);
      assert s.bit / 8 == t.bit / 8 && s.bit % 8 == sh + u;
      assert s.bit % 8 + 5 >= 8;
    }
  }

  lemma InsideByte(q: Byte, b: Byte, u: nat)
    requires Moved(q, b, u)
    ensures forall j :: 0 <= j < 8 && BitOf(b, j) ==> j + u < 8
  {
    hide BitOf;
  }

  lemma NotSix(b: Byte)
    requires !BitOf(b, 5)
    ensures b != Byte(NB, NC)
  {
  }

  lemma NotE8(b: Byte)
    requires BitOf(b, 5)
    ensures b != Byte(NE, N8)
  {
  }

  lemma SixApart(q: Byte, u: nat, sh: nat)
    requires u == if Six2(q) then 2 else if Six1(q) then 1 else 0
    requires (sh == 2 && (Six2(q) || Six1(q))) || (sh == 6 && (Six1(q) || Six0(q)))
    ensures sh + u in {3, 4, 6, 7} && (sh == 2 <==> sh + u < 5)
  {
  }

  // ----- and the other way round -----

  /** A burst moved down to its home. */
  function Home(s: Slot): Slot {
    var sh, k := HomeShift(s), s.bit % 8;
    Slot(8 * (s.bit / 8) + sh, if sh <= k then ShiftRight(s.pattern, k - sh) else ZeroByte)
  }

  lemma Down(b: Byte, u: nat)
    requires forall j :: 0 <= j < 8 && BitOf(b, j) ==> j + u < 8
    ensures Moved(ShiftRight(b, u), b, u)
  {
    hide BitOf, ShiftRight;
    forall j | 0 <= j < 8
      ensures BitOf(ShiftRight(b, u), j) == (u <= j && BitOf(b, j - u))
    {
      RightBit(b, u, j);
    }
  }

  lemma InnerPattern(q: Byte, b: Byte, u: nat)
    requires Moved(q, b, u) && u < 8 && BitOf(b, 0) && !BitOf(b, 6) && !BitOf(b, 7) && b != Byte(NB, NC)
    ensures Middle(q) || Six2(q) || Six1(q) || Six0(q) || Rest(q)
  {
    MovedBits(q, b, u);
  }

  lemma MiddlePattern(q: Byte, b: Byte, u: nat)
    requires Moved(q, b, u) && u < 4 && BitOf(b, 0) && !BitOf(b, 5) && !BitOf(b, 6) && !BitOf(b, 7) && b != Byte(NE, N8)
    requires exists j :: 1 <= j < 6 && 4 + u + j >= 8 && BitOf(b, j)
    ensures Middle(q)
  {
    MovedBits(q, b, u);
  }

  lemma SixPattern(q: Byte, b: Byte, u: nat)
    requires Moved(q, b, u) && u < 3 && BitOf(b, 0) && BitOf(b, 5) && !BitOf(b, 6) && !BitOf(b, 7) && b != Byte(NB, NC)
    ensures if u == 2 then Six2(q) else if u == 1 then Six1(q) else Six0(q)
  {
    MovedBits(q, b, u);
  }

  /** A listed burst was visited. */
  lemma ListedVisited(s: Slot)
    requires IsBurst(s) && Listed(s)
    ensures Home(s) in Plan() && Home(s).bit < 88 && ErrorAt(Home(s)) == ErrorAt(s)
  {
    hide BitOf, ErrorAt, Plan, Moved, Middle, Six2, Six1, Six0, Rest, ShiftRight;
    var k, b := s.bit % 8, s.pattern;
    var u := k - HomeShift(s);
    BelowSix(b);
    if Crosses(s) {
      var j :| 1 <= j < 6 && k + j >= 8 && BitOf(b, j);
      assert s.bit + j < 88;
    }
    Down(b, u);
    var q := ShiftRight(b, u);
    if !Crosses(s) {
      InnerPattern(q, b, u);
    } else if !BitOf(b, 5) {
      MiddlePattern(q, b, u);
    } else {
      SixPattern(q, b, u);
    }
    PlanMember(Home(s));
    MovedError(s, Home(s));
  }

  lemma BelowSix(b: Byte)
    requires !BitOf(b, 6) && !BitOf(b, 7)
    ensures forall j :: 0 <= j < 8 && BitOf(b, j) ==> j < 6
  {
    hide BitOf;
  }
}
