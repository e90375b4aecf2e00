/** The errors of the Fire table as flipped bits of the header. */
module FireBits {
  import opened Crc
  import opened FireCode

  /** Bit j of a byte, the most significant first. */
  function BitOf(b: Byte, j: nat): bool {
    if j == 0 then b.hi.b3 else if j == 1 then b.hi.b2 else if j == 2 then b.hi.b1 else if j == 3 then b.hi.b0
    else if j == 4 then b.lo.b3 else if j == 5 then b.lo.b2 else if j == 6 then b.lo.b1 else j == 7 && b.lo.b0
  }

  lemma SameBits(b: Byte, d: Byte)
    requires forall j :: 0 <= j < 8 ==> BitOf(b, j) == BitOf(d, j)
    ensures b == d
  {
    assert BitOf(b, 0) == BitOf(d, 0) && BitOf(b, 1) == BitOf(d, 1) && BitOf(b, 2) == BitOf(d, 2);
    assert BitOf(b, 3) == BitOf(d, 3) && BitOf(b, 4) == BitOf(d, 4) && BitOf(b, 5) == BitOf(d, 5);
    assert BitOf(b, 6) == BitOf(d, 6) && BitOf(b, 7) == BitOf(d, 7);
  }

  lemma {:induction false} RightBit(b: Byte, k: nat, j: nat)
    requires j < 8
    ensures BitOf(ShiftRight(b, k), j) == (k <= j && BitOf(b, j - k))
  {
    if k > 0 {
      RightOne(ShiftRight(b, k - 1), j);
      if j > 0 {
        RightBit(b, k - 1, j - 1);
      }
    }
  }

  lemma RightOne(b: Byte, j: nat)
    requires j < 8
    ensures BitOf(ShiftRightOne(b), j) == (j > 0 && BitOf(b, j - 1))
  {
  }

  lemma {:induction false} LeftBit(b: Byte, k: nat, j: nat)
    requires j < 8
    ensures BitOf(ShiftLeft(b, k), j) == BitOf(b, j + k)
  {
    if k > 0 {
      LeftOne(ShiftLeft(b, k - 1), j);
      if j < 7 {
        LeftBit(b, k - 1, j + 1);
      }
    }
  }

  lemma LeftOne(b: Byte, j: nat)
    requires j < 8
    ensures BitOf(ShiftLeftOne(b), j) == (j < 7 && BitOf(b, j + 1))
  {
  }

  /** Bit p of a header. */
  function HeaderBit(x: seq<Byte>, p: nat): bool
    requires p < 8 * |x|
  {
    BitOf(x[p / 8], p % 8)
  }

  /** A slot stands for the error that flips bit s.bit + j where its pattern has bit j. */
  lemma ErrorBits(s: Slot, p: nat)
    requires s.bit < 88 && p < 96
    ensures HeaderBit(ErrorAt(s), p) == (s.bit <= p && BitOf(s.pattern, p - s.bit))
  {
    hide BitOf, ShiftLeft, ShiftRight;
    var i, j, k := p / 8, p % 8, s.bit % 8;
    assert ErrorAt(s)[i] == ErrorByte(s, i);
    if i == s.bit / 8 {
      RightBit(s.pattern, k, j);
    } else if i == s.bit / 8 + 1 {
      LeftBit(s.pattern, 8 - k, j);
    } else {
      NoBit(j);
      if s.bit <= p {
        BeyondByte(s.pattern, p - s.bit);
      }
    }
  }

  lemma NoBit(j: nat)
    ensures !BitOf(ZeroByte, j)
  {
  }

  lemma BeyondByte(b: Byte, j: nat)
    requires j >= 8
    ensures !BitOf(b, j)
  {
  }

  // ----- bursts -----

  /** A burst of at most six bits of the 88, in its normal form: the pattern starts with its first bit. */
  predicate IsBurst(s: Slot) {
    && s.bit < 88 && BitOf(s.pattern, 0) && !BitOf(s.pattern, 6) && !BitOf(s.pattern, 7)
    && forall j :: 1 <= j < 6 && s.bit + j >= 88 ==> !BitOf(s.pattern, j)
  }

  /** Every burst has one normal form. */
  lemma NormalUnique(s: Slot, t: Slot)
    requires s.bit < 88 && t.bit < 88 && BitOf(s.pattern, 0) && BitOf(t.pattern, 0) && ErrorAt(s) == ErrorAt(t)
    ensures s == t
  {
    hide BitOf, ErrorAt;
    ErrorBits(s, s.bit);
    ErrorBits(t, s.bit);
    ErrorBits(s, t.bit);
    ErrorBits(t, t.bit);
    forall j | 0 <= j < 8
      ensures BitOf(s.pattern, j) == BitOf(t.pattern, j)
    {
      if s.bit + j < 96 {
        ErrorBits(s, s.bit + j);
        ErrorBits(t, s.bit + j);
      }
    }
    SameBits(s.pattern, t.pattern);
  }
}
