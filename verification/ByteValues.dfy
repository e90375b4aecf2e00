/** Bytes and words as numbers. */
module ByteValues {
  import opened Crc
  import opened CrcTable

  function ByteValue(b: Byte): (r: nat)
    ensures r < 256
  {
    16 * Digit(b.hi) + Digit(b.lo)
  }

  function WordValue(w: Word): (r: nat)
    ensures r < 65536
  {
    4096 * Digit(w.n3) + 256 * Digit(w.n2) + 16 * Digit(w.n1) + Digit(w.n0)
  }

  function NibbleOf(d: nat): Nibble {
    Nibble(d / 8 % 2 == 1, d / 4 % 2 == 1, d / 2 % 2 == 1, d % 2 == 1)
  }

  function ByteOf(i: nat): Byte {
    Byte(NibbleOf(i / 16), NibbleOf(i % 16))
  }

  lemma NibbleOfDigit(n: Nibble)
    ensures NibbleOf(Digit(n)) == n
  {
  }

  lemma ByteOfValue(b: Byte)
    ensures ByteOf(ByteValue(b)) == b
  {
    hide Digit, NibbleOf;
    var h, l := Digit(b.hi), Digit(b.lo);
    assert (16 * h + l) / 16 == h && (16 * h + l) % 16 == l;
    NibbleOfDigit(b.hi);
    NibbleOfDigit(b.lo);
  }

  lemma WordValueInjective(v: Word, w: Word)
    requires WordValue(v) == WordValue(w)
    ensures v == w
  {
    hide Digit;
    assert Digit(v.n3) == Digit(w.n3) && Digit(v.n2) == Digit(w.n2);
    assert Digit(v.n1) == Digit(w.n1) && Digit(v.n0) == Digit(w.n0);
    DigitIs(v.n3, w.n3);
    DigitIs(v.n2, w.n2);
    DigitIs(v.n1, w.n1);
    DigitIs(v.n0, w.n0);
  }

  lemma DigitOfNibble(d: nat)
    requires d < 16
    ensures Digit(NibbleOf(d)) == d
  {
  }

  lemma ValueOfByte(i: nat)
    requires i < 256
    ensures ByteValue(ByteOf(i)) == i
  {
    hide Digit, NibbleOf;
    DigitOfNibble(i / 16);
    DigitOfNibble(i % 16);
  }
}
