/** The table crctab_1021 of crc.cpp, one word per byte value written by its hexadecimal digits, and
    the proof that every entry is the remainder of its byte by x^16 + x^12 + x^5 + 1. */
module CrcTable {
  import opened Crc

  const N0 := Nibble(false, false, false, false)
  const N1 := Nibble(false, false, false, true)
  const N2 := Nibble(false, false, true, false)
  const N3 := Nibble(false, false, true, true)
  const N4 := Nibble(false, true, false, false)
  const N5 := Nibble(false, true, false, true)
  const N6 := Nibble(false, true, true, false)
  const N7 := Nibble(false, true, true, true)
  const N8 := Nibble(true, false, false, false)
  const N9 := Nibble(true, false, false, true)
  const NA := Nibble(true, false, true, false)
  const NB := Nibble(true, false, true, true)
  const NC := Nibble(true, true, false, false)
  const ND := Nibble(true, true, false, true)
  const NE := Nibble(true, true, true, false)
  const NF := Nibble(true, true, true, true)

  /** The polynomial without its leading term, 0x1021. */
  const Poly := Word(N1, N0, N2, N1)

  function Digit(n: Nibble): (r: nat)
    ensures r < 16
  {
    (if n.b3 then 8 else 0) + (if n.b2 then 4 else 0) + (if n.b1 then 2 else 0) + (if n.b0 then 1 else 0)
  }

  /** A table row by its sixteen words. */
  datatype Row = Row(c0: Word, c1: Word, c2: Word, c3: Word, c4: Word, c5: Word, c6: Word, c7: Word,
                     c8: Word, c9: Word, cA: Word, cB: Word, cC: Word, cD: Word, cE: Word, cF: Word)
  {
    function At(d: nat): Word
      requires d < 16
    {
      match d
      case 0 => c0 case 1 => c1 case 2 => c2 case 3 => c3 case 4 => c4 case 5 => c5 case 6 => c6 case 7 => c7
      case 8 => c8 case 9 => c9 case 10 => cA case 11 => cB case 12 => cC case 13 => cD case 14 => cE case 15 => cF
    }
  }

  const Row0 := Row(
    Word(N0, N0, N0, N0), Word(N1, N0, N2, N1), Word(N2, N0, N4, N2), Word(N3, N0, N6, N3),
    Word(N4, N0, N8, N4), Word(N5, N0, NA, N5), Word(N6, N0, NC, N6), Word(N7, N0, NE, N7),
    Word(N8, N1, N0, N8), Word(N9, N1, N2, N9), Word(NA, N1, N4, NA), Word(NB, N1, N6, NB),
    Word(NC, N1, N8, NC), Word(ND, N1, NA, ND), Word(NE, N1, NC, NE), Word(NF, N1, NE, NF))
  const Row1 := Row(
    Word(N1, N2, N3, N1), Word(N0, N2, N1, N0), Word(N3, N2, N7, N3), Word(N2, N2, N5, N2),
    Word(N5, N2, NB, N5), Word(N4, N2, N9, N4), Word(N7, N2, NF, N7), Word(N6, N2, ND, N6),
    Word(N9, N3, N3, N9), Word(N8, N3, N1, N8), Word(NB, N3, N7, NB), Word(NA, N3, N5, NA),
    Word(ND, N3, NB, ND), Word(NC, N3, N9, NC), Word(NF, N3, NF, NF), Word(NE, N3, ND, NE))
  const Row2 := Row(
    Word(N2, N4, N6, N2), Word(N3, N4, N4, N3), Word(N0, N4, N2, N0), Word(N1, N4, N0, N1),
    Word(N6, N4, NE, N6), Word(N7, N4, NC, N7), Word(N4, N4, NA, N4), Word(N5, N4, N8, N5),
    Word(NA, N5, N6, NA), Word(NB, N5, N4, NB), Word(N8, N5, N2, N8), Word(N9, N5, N0, N9),
    Word(NE, N5, NE, NE), Word(NF, N5, NC, NF), Word(NC, N5, NA, NC), Word(ND, N5, N8, ND))
  const Row3 := Row(
    Word(N3, N6, N5, N3), Word(N2, N6, N7, N2), Word(N1, N6, N1, N1), Word(N0, N6, N3, N0),
    Word(N7, N6, ND, N7), Word(N6, N6, NF, N6), Word(N5, N6, N9, N5), Word(N4, N6, NB, N4),
    Word(NB, N7, N5, NB), Word(NA, N7, N7, NA), Word(N9, N7, N1, N9), Word(N8, N7, N3, N8),
    Word(NF, N7, ND, NF), Word(NE, N7, NF, NE), Word(ND, N7, N9, ND), Word(NC, N7, NB, NC))
  const Row4 := Row(
    Word(N4, N8, NC, N4), Word(N5, N8, NE, N5), Word(N6, N8, N8, N6), Word(N7, N8, NA, N7),
    Word(N0, N8, N4, N0), Word(N1, N8, N6, N1), Word(N2, N8, N0, N2), Word(N3, N8, N2, N3),
    Word(NC, N9, NC, NC), Word(ND, N9, NE, ND), Word(NE, N9, N8, NE), Word(NF, N9, NA, NF),
    Word(N8, N9, N4, N8), Word(N9, N9, N6, N9), Word(NA, N9, N0, NA), Word(NB, N9, N2, NB))
  const Row5 := Row(
    Word(N5, NA, NF, N5), Word(N4, NA, ND, N4), Word(N7, NA, NB, N7), Word(N6, NA, N9, N6),
    Word(N1, NA, N7, N1), Word(N0, NA, N5, N0), Word(N3, NA, N3, N3), Word(N2, NA, N1, N2),
    Word(ND, NB, NF, ND), Word(NC, NB, ND, NC), Word(NF, NB, NB, NF), Word(NE, NB, N9, NE),
    Word(N9, NB, N7, N9), Word(N8, NB, N5, N8), Word(NB, NB, N3, NB), Word(NA, NB, N1, NA))
  const Row6 := Row(
    Word(N6, NC, NA, N6), Word(N7, NC, N8, N7), Word(N4, NC, NE, N4), Word(N5, NC, NC, N5),
    Word(N2, NC, N2, N2), Word(N3, NC, N0, N3), Word(N0, NC, N6, N0), Word(N1, NC, N4, N1),
    Word(NE, ND, NA, NE), Word(NF, ND, N8, NF), Word(NC, ND, NE, NC), Word(ND, ND, NC, ND),
    Word(NA, ND, N2, NA), Word(NB, ND, N0, NB), Word(N8, ND, N6, N8), Word(N9, ND, N4, N9))
  const Row7 := Row(
    Word(N7, NE, N9, N7), Word(N6, NE, NB, N6), Word(N5, NE, ND, N5), Word(N4, NE, NF, N4),
    Word(N3, NE, N1, N3), Word(N2, NE, N3, N2), Word(N1, NE, N5, N1), Word(N0, NE, N7, N0),
    Word(NF, NF, N9, NF), Word(NE, NF, NB, NE), Word(ND, NF, ND, ND), Word(NC, NF, NF, NC),
    Word(NB, NF, N1, NB), Word(NA, NF, N3, NA), Word(N9, NF, N5, N9), Word(N8, NF, N7, N8))
  const Row8 := Row(
    Word(N9, N1, N8, N8), Word(N8, N1, NA, N9), Word(NB, N1, NC, NA), Word(NA, N1, NE, NB),
    Word(ND, N1, N0, NC), Word(NC, N1, N2, ND), Word(NF, N1, N4, NE), Word(NE, N1, N6, NF),
    Word(N1, N0, N8, N0), Word(N0, N0, NA, N1), Word(N3, N0, NC, N2), Word(N2, N0, NE, N3),
    Word(N5, N0, N0, N4), Word(N4, N0, N2, N5), Word(N7, N0, N4, N6), Word(N6, N0, N6, N7))
  const Row9 := Row(
    Word(N8, N3, NB, N9), Word(N9, N3, N9, N8), Word(NA, N3, NF, NB), Word(NB, N3, ND, NA),
    Word(NC, N3, N3, ND), Word(ND, N3, N1, NC), Word(NE, N3, N7, NF), Word(NF, N3, N5, NE),
    Word(N0, N2, NB, N1), Word(N1, N2, N9, N0), Word(N2, N2, NF, N3), Word(N3, N2, ND, N2),
    Word(N4, N2, N3, N5), Word(N5, N2, N1, N4), Word(N6, N2, N7, N7), Word(N7, N2, N5, N6))
  const RowA := Row(
    Word(NB, N5, NE, NA), Word(NA, N5, NC, NB), Word(N9, N5, NA, N8), Word(N8, N5, N8, N9),
    Word(NF, N5, N6, NE), Word(NE, N5, N4, NF), Word(ND, N5, N2, NC), Word(NC, N5, N0, ND),
    Word(N3, N4, NE, N2), Word(N2, N4, NC, N3), Word(N1, N4, NA, N0), Word(N0, N4, N8, N1),
    Word(N7, N4, N6, N6), Word(N6, N4, N4, N7), Word(N5, N4, N2, N4), Word(N4, N4, N0, N5))
  const RowB := Row(
    Word(NA, N7, ND, NB), Word(NB, N7, NF, NA), Word(N8, N7, N9, N9), Word(N9, N7, NB, N8),
    Word(NE, N7, N5, NF), Word(NF, N7, N7, NE), Word(NC, N7, N1, ND), Word(ND, N7, N3, NC),
    Word(N2, N6, ND, N3), Word(N3, N6, NF, N2), Word(N0, N6, N9, N1), Word(N1, N6, NB, N0),
    Word(N6, N6, N5, N7), Word(N7, N6, N7, N6), Word(N4, N6, N1, N5), Word(N5, N6, N3, N4))
  const RowC := Row(
    Word(ND, N9, N4, NC), Word(NC, N9, N6, ND), Word(NF, N9, N0, NE), Word(NE, N9, N2, NF),
    Word(N9, N9, NC, N8), Word(N8, N9, NE, N9), Word(NB, N9, N8, NA), Word(NA, N9, NA, NB),
    Word(N5, N8, N4, N4), Word(N4, N8, N6, N5), Word(N7, N8, N0, N6), Word(N6, N8, N2, N7),
    Word(N1, N8, NC, N0), Word(N0, N8, NE, N1), Word(N3, N8, N8, N2), Word(N2, N8, NA, N3))
  const RowD := Row(
    Word(NC, NB, N7, ND), Word(ND, NB, N5, NC), Word(NE, NB, N3, NF), Word(NF, NB, N1, NE),
    Word(N8, NB, NF, N9), Word(N9, NB, ND, N8), Word(NA, NB, NB, NB), Word(NB, NB, N9, NA),
    Word(N4, NA, N7, N5), Word(N5, NA, N5, N4), Word(N6, NA, N3, N7), Word(N7, NA, N1, N6),
    Word(N0, NA, NF, N1), Word(N1, NA, ND, N0), Word(N2, NA, NB, N3), Word(N3, NA, N9, N2))
  const RowE := Row(
    Word(NF, ND, N2, NE), Word(NE, ND, N0, NF), Word(ND, ND, N6, NC), Word(NC, ND, N4, ND),
    Word(NB, ND, NA, NA), Word(NA, ND, N8, NB), Word(N9, ND, NE, N8), Word(N8, ND, NC, N9),
    Word(N7, NC, N2, N6), Word(N6, NC, N0, N7), Word(N5, NC, N6, N4), Word(N4, NC, N4, N5),
    Word(N3, NC, NA, N2), Word(N2, NC, N8, N3), Word(N1, NC, NE, N0), Word(N0, NC, NC, N1))
  const RowF := Row(
    Word(NE, NF, N1, NF), Word(NF, NF, N3, NE), Word(NC, NF, N5, ND), Word(ND, NF, N7, NC),
    Word(NA, NF, N9, NB), Word(NB, NF, NB, NA), Word(N8, NF, ND, N9), Word(N9, NF, NF, N8),
    Word(N6, NE, N1, N7), Word(N7, NE, N3, N6), Word(N4, NE, N5, N5), Word(N5, NE, N7, N4),
    Word(N2, NE, N9, N3), Word(N3, NE, NB, N2), Word(N0, NE, ND, N1), Word(N1, NE, NF, N0))

  function CrcTab(b: Byte): Word {
    match Digit(b.hi)
    case 0 => Row0.At(Digit(b.lo))
    case 1 => Row1.At(Digit(b.lo))
    case 2 => Row2.At(Digit(b.lo))
    case 3 => Row3.At(Digit(b.lo))
    case 4 => Row4.At(Digit(b.lo))
    case 5 => Row5.At(Digit(b.lo))
    case 6 => Row6.At(Digit(b.lo))
    case 7 => Row7.At(Digit(b.lo))
    case 8 => Row8.At(Digit(b.lo))
    case 9 => Row9.At(Digit(b.lo))
    case 10 => RowA.At(Digit(b.lo))
    case 11 => RowB.At(Digit(b.lo))
    case 12 => RowC.At(Digit(b.lo))
    case 13 => RowD.At(Digit(b.lo))
    case 14 => RowE.At(Digit(b.lo))
    case _ => RowF.At(Digit(b.lo))
  }

  lemma Row0Correct(n: Nibble)
    ensures Row0.At(Digit(n)) == Entry(Byte(N0, n), Poly)
  {
    hide StepByte;
    StepByteIs(High(Byte(N0, n)), ZeroByte, Poly);
  }

  lemma Row1Correct(n: Nibble)
    ensures Row1.At(Digit(n)) == Entry(Byte(N1, n), Poly)
  {
    hide StepByte;
    StepByteIs(High(Byte(N1, n)), ZeroByte, Poly);
  }

  lemma Row2Correct(n: Nibble)
    ensures Row2.At(Digit(n)) == Entry(Byte(N2, n), Poly)
  {
    hide StepByte;
    StepByteIs(High(Byte(N2, n)), ZeroByte, Poly);
  }

  lemma Row3Correct(n: Nibble)
    ensures Row3.At(Digit(n)) == Entry(Byte(N3, n), Poly)
  {
    hide StepByte;
    StepByteIs(High(Byte(N3, n)), ZeroByte, Poly);
  }

  lemma Row4Correct(n: Nibble)
    ensures Row4.At(Digit(n)) == Entry(Byte(N4, n), Poly)
  {
    hide StepByte;
    StepByteIs(High(Byte(N4, n)), ZeroByte, Poly);
  }

  lemma Row5Correct(n: Nibble)
    ensures Row5.At(Digit(n)) == Entry(Byte(N5, n), Poly)
  {
    hide StepByte;
    StepByteIs(High(Byte(N5, n)), ZeroByte, Poly);
  }

  lemma Row6Correct(n: Nibble)
    ensures Row6.At(Digit(n)) == Entry(Byte(N6, n), Poly)
  {
    hide StepByte;
    StepByteIs(High(Byte(N6, n)), ZeroByte, Poly);
  }

  lemma Row7Correct(n: Nibble)
    ensures Row7.At(Digit(n)) == Entry(Byte(N7, n), Poly)
  {
    hide StepByte;
    StepByteIs(High(Byte(N7, n)), ZeroByte, Poly);
  }

  lemma Row8Correct(n: Nibble)
    ensures Row8.At(Digit(n)) == Entry(Byte(N8, n), Poly)
  {
    hide StepByte;
    StepByteIs(High(Byte(N8, n)), ZeroByte, Poly);
  }

  lemma Row9Correct(n: Nibble)
    ensures Row9.At(Digit(n)) == Entry(Byte(N9, n), Poly)
  {
    hide StepByte;
    StepByteIs(High(Byte(N9, n)), ZeroByte, Poly);
  }

  lemma RowACorrect(n: Nibble)
    ensures RowA.At(Digit(n)) == Entry(Byte(NA, n), Poly)
  {
    hide StepByte;
    StepByteIs(High(Byte(NA, n)), ZeroByte, Poly);
  }

  lemma RowBCorrect(n: Nibble)
    ensures RowB.At(Digit(n)) == Entry(Byte(NB, n), Poly)
  {
    hide StepByte;
    StepByteIs(High(Byte(NB, n)), ZeroByte, Poly);
  }

  lemma RowCCorrect(n: Nibble)
    ensures RowC.At(Digit(n)) == Entry(Byte(NC, n), Poly)
  {
    hide StepByte;
    StepByteIs(High(Byte(NC, n)), ZeroByte, Poly);
  }

  lemma RowDCorrect(n: Nibble)
    ensures RowD.At(Digit(n)) == Entry(Byte(ND, n), Poly)
  {
    hide StepByte;
    StepByteIs(High(Byte(ND, n)), ZeroByte, Poly);
  }

  lemma RowECorrect(n: Nibble)
    ensures RowE.At(Digit(n)) == Entry(Byte(NE, n), Poly)
  {
    hide StepByte;
    StepByteIs(High(Byte(NE, n)), ZeroByte, Poly);
  }

  lemma RowFCorrect(n: Nibble)
    ensures RowF.At(Digit(n)) == Entry(Byte(NF, n), Poly)
  {
    hide StepByte;
    StepByteIs(High(Byte(NF, n)), ZeroByte, Poly);
  }

  lemma DigitIs(n: Nibble, m: Nibble)
    requires Digit(n) == Digit(m)
    ensures n == m
  {
  }

  /** The table of the source is the table of the polynomial. */
  lemma TableCorrect(b: Byte)
    ensures CrcTab(b) == Entry(b, Poly)
  {
    hide Entry;
    match Digit(b.hi)
    case 0 => DigitIs(b.hi, N0); Row0Correct(b.lo);
    case 1 => DigitIs(b.hi, N1); Row1Correct(b.lo);
    case 2 => DigitIs(b.hi, N2); Row2Correct(b.lo);
    case 3 => DigitIs(b.hi, N3); Row3Correct(b.lo);
    case 4 => DigitIs(b.hi, N4); Row4Correct(b.lo);
    case 5 => DigitIs(b.hi, N5); Row5Correct(b.lo);
    case 6 => DigitIs(b.hi, N6); Row6Correct(b.lo);
    case 7 => DigitIs(b.hi, N7); Row7Correct(b.lo);
    case 8 => DigitIs(b.hi, N8); Row8Correct(b.lo);
    case 9 => DigitIs(b.hi, N9); Row9Correct(b.lo);
    case 10 => DigitIs(b.hi, NA); RowACorrect(b.lo);
    case 11 => DigitIs(b.hi, NB); RowBCorrect(b.lo);
    case 12 => DigitIs(b.hi, NC); RowCCorrect(b.lo);
    case 13 => DigitIs(b.hi, ND); RowDCorrect(b.lo);
    case 14 => DigitIs(b.hi, NE); RowECorrect(b.lo);
    case _ => DigitIs(b.hi, NF); RowFCorrect(b.lo);
  }
}
