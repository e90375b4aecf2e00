/** calc_crc, check_crc_bytes and check_CRC_bits of crc.cpp (annex E of EN 300 401): the table-driven
    and the bit-serial form compute the same division, and the two checkers accept the same messages. */
module CrcCheck {
  import opened Crc
  import opened CrcTable

  /** The CRC of a message: complemented remainder, register preset to ones. */
  function CrcOf(data: seq<Byte>): Word {
    Not(Divide(Ones, data, Poly))
  }

  method CalcCrc(data: array<Byte>, length: nat) returns (r: Word)
    requires length <= data.Length
    ensures r == CrcOf(data[..length])
  {
    hide Not, TableStep, StepByte, Divide, CrcTab;
    var crc := Ones;
    ghost var d := data[..length];
    DivideStart(d);
    for i := 0 to length
      invariant crc == Divide(Ones, d[..i], Poly)
    {
      var pos := XorByte(data[i], HighByte(crc));
      TableCorrect(pos);
      TableStepIs(crc, d[i]);
      DivideNext(d, i);
      crc := Xor(CrcTab(pos), High(LowByte(crc)));
    }
    assert d[..length] == d;
    r := Not(crc);
  }

  lemma DivideStart(d: seq<Byte>)
    ensures Divide(Ones, d[..0], Poly) == Ones
  {
  }

  lemma DivideNext(d: seq<Byte>, i: nat)
    requires i < |d|
    ensures Divide(Ones, d[..i + 1], Poly) == StepByte(Divide(Ones, d[..i], Poly), d[i], Poly)
  {
    hide StepByte;
    assert d[..i + 1][..i] == d[..i];
  }

  lemma TableStepIs(w: Word, b: Byte)
    ensures Xor(Entry(XorByte(b, HighByte(w)), Poly), High(LowByte(w))) == StepByte(w, b, Poly)
  {
    hide StepByte;
    TableStepIsStepByte(w, b, Poly);
  }

  /** check_crc_bytes: the two bytes behind the message hold its CRC. */
  method CheckCrcBytes(msg: array<Byte>, len: nat) returns (ok: bool)
    requires len + 2 <= msg.Length
    ensures ok <==> Word(msg[len].hi, msg[len].lo, msg[len + 1].hi, msg[len + 1].lo) == CrcOf(msg[..len])
  {
    hide CrcOf, Xor;
    var accumulator := CalcCrc(msg, len);
    var crc := Word(msg[len].hi, msg[len].lo, msg[len + 1].hi, msg[len + 1].lo);
    XorIsZero(crc, accumulator);
    ok := Xor(crc, accumulator) == Zero;
  }

  // ----- bit-serial check -----

  /** The input of check_CRC_bits with its last 16 bits inverted. */
  function Inverted(bits: seq<bool>): (r: seq<bool>)
    ensures |r| == |bits| && forall i :: 0 <= i < |r| ==> r[i] == (bits[i] != (i >= |bits| - 16))
  {
    seq(|bits|, i requires 0 <= i < |bits| => bits[i] != (i >= |bits| - 16))
  }

  /** The 16 cells of the shift register, most significant first. */
  function WordOf(s: seq<bool>): Word
    requires |s| == 16
  {
    Word(Nibble(s[0], s[1], s[2], s[3]), Nibble(s[4], s[5], s[6], s[7]),
         Nibble(s[8], s[9], s[10], s[11]), Nibble(s[12], s[13], s[14], s[15]))
  }

  predicate PolyBit(f: nat) {
    f == 3 || f == 10
  }

  lemma FeedbackIsStep(s: seq<bool>, t: seq<bool>, x: bool)
    requires |s| == |t| == 16 && s[0] != x
    requires forall f :: 0 <= f < 15 ==> t[f] == (PolyBit(f) != s[f + 1])
    requires t[15]
    ensures WordOf(t) == Step(WordOf(s), x, Poly)
  {
  }

  lemma ShiftIsStep(s: seq<bool>, t: seq<bool>, x: bool)
    requires |s| == |t| == 16 && s[0] == x && t == s[1..] + [false]
    ensures WordOf(t) == Step(WordOf(s), x, Poly)
  {
  }

  /** One input bit through the register b. */
  method ShiftBit(b: array<bool>, x: bool)
    requires b.Length == 16
    modifies b
    ensures WordOf(b[..]) == Step(WordOf(old(b[..])), x, Poly)
  {
    hide WordOf, Step, PolyBit;
    ghost var s := b[..];
    if b[0] != x {
      for f := 0 to 15
        invariant forall k :: 0 <= k < f ==> b[k] == (PolyBit(k) != s[k + 1])
        invariant forall k :: f <= k < 16 ==> b[k] == s[k]
      {
        b[f] := PolyBit(f) != b[f + 1];
      }
      b[15] := true;
      FeedbackIsStep(s, b[..], x);
    } else {
      for f := 0 to 15
        invariant forall k :: 0 <= k < f ==> b[k] == s[k + 1]
        invariant forall k :: f <= k < 16 ==> b[k] == s[k]
      {
        b[f] := b[f + 1];
      }
      b[15] := false;
      ShiftIsStep(s, b[..], x);
    }
  }

  lemma WordOfConstant(s: seq<bool>, c: bool)
    requires |s| == 16 && forall i :: 0 <= i < 16 ==> s[i] == c
    ensures WordOf(s) == if c then Ones else Zero
  {
  }

  lemma WordOfZero(s: seq<bool>)
    requires |s| == 16
    ensures WordOf(s) == Zero <==> forall i :: 0 <= i < 16 ==> !s[i]
  {
    if WordOf(s) == Zero {
      assert !s[0] && !s[1] && !s[2] && !s[3] && !s[4] && !s[5] && !s[6] && !s[7];
      assert !s[8] && !s[9] && !s[10] && !s[11] && !s[12] && !s[13] && !s[14] && !s[15];
    }
  }

  /** check_CRC_bits: the register is zero after the message and its inverted CRC. */
  method CheckCrcBits(input: array<bool>, size: nat) returns (ok: bool)
    requires size <= input.Length
    ensures ok <==> DivideBits(Ones, Inverted(input[..size]), Poly) == Zero
  {
    hide WordOf, DivideBits, Step;
    var b := new bool[16](_ => true);
    ghost var d := Inverted(input[..size]);
    WordOfConstant(b[..], true);
    DivideBitsStart(d);
    for i := 0 to size
      invariant b.Length == 16 && fresh(b) && WordOf(b[..]) == DivideBits(Ones, d[..i], Poly)
    {
      var invBit := i >= size - 16;
      DivideBitsNext(d, i);
      ShiftBit(b, input[i] != invBit);
    }
    assert d[..size] == d;
    var sum := 0;
    for i := 0 to 16
      invariant 0 <= sum && (sum == 0 <==> forall k :: 0 <= k < i ==> !b[k])
    {
      sum := sum + (if b[i] then 1 else 0);
    }
    WordOfZero(b[..]);
    ok := sum == 0;
  }

  lemma DivideBitsStart(d: seq<bool>)
    ensures DivideBits(Ones, d[..0], Poly) == Ones
  {
  }

  lemma DivideBitsNext(d: seq<bool>, i: nat)
    requires i < |d|
    ensures DivideBits(Ones, d[..i + 1], Poly) == Step(DivideBits(Ones, d[..i], Poly), d[i], Poly)
  {
    hide Step;
    assert d[..i + 1][..i] == d[..i];
  }

  // ----- the two checkers agree -----

  /** The bits of a byte string, most significant first. */
  function Unpacked(data: seq<Byte>): (r: seq<bool>)
    ensures |r| == 8 * |data|
  {
    if data == [] then []
    else Unpacked(data[..|data| - 1]) + (Bits4(data[|data| - 1].hi) + Bits4(data[|data| - 1].lo))
  }

  /** Bit-serial and byte-wise division agree on every byte string. */
  lemma {:induction false} DivideUnpacked(w: Word, data: seq<Byte>)
    ensures DivideBits(w, Unpacked(data), Poly) == Divide(w, data, Poly)
  {
    hide DivideBits, Bits4;
    if data == [] {
      DivideBitsEmpty(w);
    } else {
      var n := |data| - 1;
      DivideUnpacked(w, data[..n]);
      DivideBitsAppend(w, Unpacked(data[..n]), Bits4(data[n].hi) + Bits4(data[n].lo), Poly);
    }
  }

  lemma DivideBitsEmpty(w: Word)
    ensures DivideBits(w, [], Poly) == w
  {
  }

  function NotByte(b: Byte): Byte {
    Byte(Xor4(b.hi, Ones4), Xor4(b.lo, Ones4))
  }

  /** Sixteen bits into the register. */
  function Feed(w: Word, x: Word): Word {
    StepByte(StepByte(w, HighByte(x), Poly), LowByte(x), Poly)
  }

  lemma FeedSelf(w: Word)
    ensures Feed(w, w) == Zero
  {
    hide StepByte;
    StepByteMatching(w, Poly);
    StepByteSelf(LowByte(w), Poly);
  }

  lemma FeedLinear(a: Word, x: Word, b: Word, y: Word)
    ensures Feed(Xor(a, b), Xor(x, y)) == Xor(Feed(a, x), Feed(b, y))
  {
    hide StepByte, Xor4;
    StepByteLinear(a, HighByte(x), b, HighByte(y), Poly);
    StepByteLinear(StepByte(a, HighByte(x), Poly), LowByte(x), StepByte(b, HighByte(y), Poly), LowByte(y), Poly);
  }

  /** The last coefficient of the polynomial is set, so division forgets nothing. */
  lemma StepKeeps(w: Word)
    requires Step(w, false, Poly) == Zero
    ensures w == Zero
  {
  }

  lemma Step4Keeps(w: Word)
    requires Step4(w, Zero4, Poly) == Zero
    ensures w == Zero
  {
    hide Step;
    StepKeeps(Step(Step(Step(w, false, Poly), false, Poly), false, Poly));
    StepKeeps(Step(Step(w, false, Poly), false, Poly));
    StepKeeps(Step(w, false, Poly));
    StepKeeps(w);
  }

  lemma FeedKeeps(w: Word)
    requires Feed(w, Zero) == Zero
    ensures w == Zero
  {
    hide Step4, StepByte;
    StepByteIs(w, ZeroByte, Poly);
    StepByteIs(StepByte(w, ZeroByte, Poly), ZeroByte, Poly);
    var w1 := Step4(w, Zero4, Poly);
    var w2 := Step4(w1, Zero4, Poly);
    var w3 := Step4(w2, Zero4, Poly);
    Step4Keeps(w3);
    Step4Keeps(w2);
    Step4Keeps(w1);
    Step4Keeps(w);
  }

  lemma FeedIsZero(w: Word, x: Word)
    ensures Feed(w, x) == Zero <==> w == x
  {
    hide Xor, Feed;
    FeedSelf(x);
    FeedLinear(Xor(w, x), Zero, x, x);
    XorZero(x);
    XorZero(w);
    XorAssoc(w, x, x);
    XorZero(Feed(Xor(w, x), Zero));
    if Feed(w, x) == Zero {
      FeedKeeps(Xor(w, x));
      XorIsZero(w, x);
    }
  }

  function Bits8(b: Byte): (r: seq<bool>)
    ensures |r| == 8
  {
    Bits4(b.hi) + Bits4(b.lo)
  }

  lemma UnpackedTwo(data: seq<Byte>, b1: Byte, b2: Byte)
    ensures Unpacked(data + [b1, b2]) == Unpacked(data) + Bits8(b1) + Bits8(b2)
  {
    hide Bits4;
    var n := |data|;
    assert (data + [b1, b2])[..n + 1] == data + [b1];
    assert (data + [b1])[..n] == data;
  }

  lemma NotByteBits(b: Byte)
    ensures forall i :: 0 <= i < 8 ==> Bits8(NotByte(b))[i] == !Bits8(b)[i]
  {
  }

  lemma InvertedMessage(data: seq<Byte>, b1: Byte, b2: Byte)
    ensures Inverted(Unpacked(data + [b1, b2])) == Unpacked(data + [NotByte(b1), NotByte(b2)])
  {
    hide Bits8, Unpacked, NotByte, Inverted;
    UnpackedTwo(data, b1, b2);
    UnpackedTwo(data, NotByte(b1), NotByte(b2));
    NotByteBits(b1);
    NotByteBits(b2);
  }

  /** check_CRC_bits on the unpacked bits accepts exactly when check_crc_bytes accepts the bytes. */
  lemma CheckersAgree(data: seq<Byte>, b1: Byte, b2: Byte)
    ensures DivideBits(Ones, Inverted(Unpacked(data + [b1, b2])), Poly) == Zero <==>
            Word(b1.hi, b1.lo, b2.hi, b2.lo) == CrcOf(data)
  {
    hide DivideBits, Unpacked, Inverted, StepByte, Xor4;
    var c, r := Word(b1.hi, b1.lo, b2.hi, b2.lo), Divide(Ones, data, Poly);
    InvertedMessage(data, b1, b2);
    var m := data + [NotByte(b1), NotByte(b2)];
    DivideUnpacked(Ones, m);
    assert m[..|data| + 1] == data + [NotByte(b1)];
    assert (data + [NotByte(b1)])[..|data|] == data;
    FeedIsZero(r, Not(c));
    NotTwice(r);
    NotTwice(c);
  }

  lemma NotTwice(w: Word)
    ensures Not(Not(w)) == w
  {
    hide Xor;
    XorAssoc(w, Ones, Ones);
    XorZero(Ones);
    XorZero(w);
  }

  // ----- check values -----

  /** The CRC of nothing is 0, and that of a zero byte is 0x1E0F: zeros in front of a message do not go unnoticed. */
  lemma CheckValues()
    ensures CrcOf([]) == Zero && CrcOf([ZeroByte]) == Word(N1, NE, N0, NF)
  {
    hide StepByte;
    StepByteIs(Ones, ZeroByte, Poly);
    assert [ZeroByte][..0] == [];
  }
}
