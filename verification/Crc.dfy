/** Cyclic redundancy checks with a 16-bit register: bit-serial division, the byte-wise table form,
    and their linearity over exclusive or. */
module Crc {

  datatype Nibble = Nibble(b3: bool, b2: bool, b1: bool, b0: bool)
  datatype Byte = Byte(hi: Nibble, lo: Nibble)

  /** A 16-bit register, n3 its most significant four bits. */
  datatype Word = Word(n3: Nibble, n2: Nibble, n1: Nibble, n0: Nibble)

  const Zero4 := Nibble(false, false, false, false)
  const Ones4 := Nibble(true, true, true, true)
  const ZeroByte := Byte(Zero4, Zero4)
  const Zero := Word(Zero4, Zero4, Zero4, Zero4)
  const Ones := Word(Ones4, Ones4, Ones4, Ones4)

  function Xor4(a: Nibble, b: Nibble): Nibble {
    Nibble(a.b3 != b.b3, a.b2 != b.b2, a.b1 != b.b1, a.b0 != b.b0)
  }

  function XorByte(a: Byte, b: Byte): Byte {
    Byte(Xor4(a.hi, b.hi), Xor4(a.lo, b.lo))
  }

  function Xor(a: Word, b: Word): Word {
    Word(Xor4(a.n3, b.n3), Xor4(a.n2, b.n2), Xor4(a.n1, b.n1), Xor4(a.n0, b.n0))
  }

  function Not(a: Word): Word {
    Xor(a, Ones)
  }

  /** One nibble moved up by a bit, c entering below. */
  function Shift4(a: Nibble, c: bool): Nibble {
    Nibble(a.b2, a.b1, a.b0, c)
  }

  function Shift(w: Word): Word {
    Word(Shift4(w.n3, w.n2.b3), Shift4(w.n2, w.n1.b3), Shift4(w.n1, w.n0.b3), Shift4(w.n0, false))
  }

  function Sel(c: bool, w: Word): Word {
    if c then w else Zero
  }

  /** The byte in the upper or the lower half of a register, and the halves of a register. */
  function High(b: Byte): Word {
    Word(b.hi, b.lo, Zero4, Zero4)
  }

  function Low(b: Byte): Word {
    Word(Zero4, Zero4, b.hi, b.lo)
  }

  function HighByte(w: Word): Byte {
    Byte(w.n3, w.n2)
  }

  function LowByte(w: Word): Byte {
    Byte(w.n1, w.n0)
  }

  // ----- bit-serial division -----

  /** One bit of polynomial division: x enters at the top. */
  function Step(w: Word, x: bool, poly: Word): Word {
    Xor(Shift(w), Sel(w.n3.b3 != x, poly))
  }

  function Step4(w: Word, n: Nibble, poly: Word): Word {
    Step(Step(Step(Step(w, n.b3, poly), n.b2, poly), n.b1, poly), n.b0, poly)
  }

  /** The register after dividing the bits. */
  function DivideBits(w: Word, bits: seq<bool>, poly: Word): Word {
    if bits == [] then w else Step(DivideBits(w, bits[..|bits| - 1], poly), bits[|bits| - 1], poly)
  }

  function Bits4(n: Nibble): (r: seq<bool>)
    ensures |r| == 4
  {
    [n.b3, n.b2, n.b1, n.b0]
  }

  /** Eight bits, most significant first. */
  function StepByte(w: Word, b: Byte, poly: Word): Word {
    DivideBits(w, Bits4(b.hi) + Bits4(b.lo), poly)
  }

  lemma {:induction false} DivideBitsAppend(w: Word, a: seq<bool>, b: seq<bool>, poly: Word)
    ensures DivideBits(w, a + b, poly) == DivideBits(DivideBits(w, a, poly), b, poly)
    decreases |b|
  {
    hide Step;
    if b == [] {
      assert a + b == a;
    } else {
      var n := |b| - 1;
      DivideBitsAppend(w, a, b[..n], poly);
      assert (a + b)[..|a| + n] == a + b[..n];
    }
  }

  lemma DivideBits4(w: Word, n: Nibble, poly: Word)
    ensures DivideBits(w, Bits4(n), poly) == Step4(w, n, poly)
  {
    hide Step;
    var s := Bits4(n);
    assert s[..3][..2] == s[..2] && s[..2][..1] == s[..1] && s[..1][..0] == [];
    assert DivideBits(w, s[..1], poly) == Step(w, n.b3, poly);
    assert DivideBits(w, s[..2], poly) == Step(DivideBits(w, s[..1], poly), n.b2, poly);
    assert DivideBits(w, s[..3], poly) == Step(DivideBits(w, s[..2], poly), n.b1, poly);
  }

  lemma StepByteIs(w: Word, b: Byte, poly: Word)
    ensures StepByte(w, b, poly) == Step4(Step4(w, b.hi, poly), b.lo, poly)
  {
    hide Step4, DivideBits, Bits4;
    DivideBitsAppend(w, Bits4(b.hi), Bits4(b.lo), poly);
    DivideBits4(w, b.hi, poly);
    DivideBits4(Step4(w, b.hi, poly), b.lo, poly);
  }

  /** The register after dividing all bytes. */
  function Divide(w: Word, data: seq<Byte>, poly: Word): Word {
    if data == [] then w else StepByte(Divide(w, data[..|data| - 1], poly), data[|data| - 1], poly)
  }

  // ----- table form -----

  /** The table entry of a byte, as fill_crc_table computes it. */
  function Entry(b: Byte, poly: Word): Word {
    StepByte(High(b), ZeroByte, poly)
  }

  /** One byte by table: the entry of the byte added to the upper half, added to the lower half moved up. */
  function TableStep(w: Word, b: Byte, poly: Word): Word {
    Xor(Entry(XorByte(b, HighByte(w)), poly), High(LowByte(w)))
  }

  lemma Xor4Laws(a: Nibble, b: Nibble, c: Nibble)
    ensures Xor4(Xor4(a, b), c) == Xor4(a, Xor4(b, c)) && Xor4(a, b) == Xor4(b, a)
    ensures Xor4(a, Zero4) == a && Xor4(Zero4, a) == a && Xor4(a, a) == Zero4
  {
  }

  lemma XorAssoc(a: Word, b: Word, c: Word)
    ensures Xor(Xor(a, b), c) == Xor(a, Xor(b, c))
  {
    hide Xor4;
    Xor4Laws(a.n3, b.n3, c.n3);
    Xor4Laws(a.n2, b.n2, c.n2);
    Xor4Laws(a.n1, b.n1, c.n1);
    Xor4Laws(a.n0, b.n0, c.n0);
  }

  lemma XorComm(a: Word, b: Word)
    ensures Xor(a, b) == Xor(b, a)
  {
    hide Xor4;
    Xor4Laws(a.n3, b.n3, Zero4);
    Xor4Laws(a.n2, b.n2, Zero4);
    Xor4Laws(a.n1, b.n1, Zero4);
    Xor4Laws(a.n0, b.n0, Zero4);
  }

  lemma XorZero(a: Word)
    ensures Xor(a, Zero) == a && Xor(Zero, a) == a && Xor(a, a) == Zero
  {
    hide Xor4;
    Xor4Laws(a.n3, Zero4, Zero4);
    Xor4Laws(a.n2, Zero4, Zero4);
    Xor4Laws(a.n1, Zero4, Zero4);
    Xor4Laws(a.n0, Zero4, Zero4);
  }

  lemma XorIsZero(a: Word, b: Word)
    ensures Xor(a, b) == Zero <==> a == b
  {
    hide Xor;
    XorZero(a);
    XorZero(b);
    XorAssoc(a, b, b);
  }

  lemma XorSwap(a: Word, b: Word, c: Word, d: Word)
    ensures Xor(Xor(a, b), Xor(c, d)) == Xor(Xor(a, c), Xor(b, d))
  {
    hide Xor;
    XorAssoc(a, b, Xor(c, d));
    XorAssoc(b, c, d);
    XorComm(b, c);
    XorAssoc(c, b, d);
    XorAssoc(a, c, Xor(b, d));
  }

  lemma Shift4Xor(a: Nibble, c: bool, b: Nibble, d: bool)
    ensures Shift4(Xor4(a, b), c != d) == Xor4(Shift4(a, c), Shift4(b, d))
  {
  }

  lemma TopXor(a: Nibble, b: Nibble)
    ensures Xor4(a, b).b3 == (a.b3 != b.b3)
  {
  }

  lemma ShiftXor(a: Word, b: Word)
    ensures Shift(Xor(a, b)) == Xor(Shift(a), Shift(b))
  {
    hide Xor4, Shift4;
    TopXor(a.n2, b.n2);
    TopXor(a.n1, b.n1);
    TopXor(a.n0, b.n0);
    Shift4Xor(a.n3, a.n2.b3, b.n3, b.n2.b3);
    Shift4Xor(a.n2, a.n1.b3, b.n2, b.n1.b3);
    Shift4Xor(a.n1, a.n0.b3, b.n1, b.n0.b3);
    Shift4Xor(a.n0, false, b.n0, false);
  }

  lemma SelXor(c: bool, d: bool, w: Word)
    ensures Sel(c != d, w) == Xor(Sel(c, w), Sel(d, w))
  {
    hide Xor;
    XorZero(w);
    XorZero(Zero);
  }

  /** Division is linear in register and input. */
  lemma StepLinear(a: Word, x: bool, b: Word, y: bool, z: bool, poly: Word)
    requires z == (x != y)
    ensures Step(Xor(a, b), z, poly) == Xor(Step(a, x, poly), Step(b, y, poly))
  {
    hide Xor, Shift, Sel;
    ShiftXor(a, b);
    assert Xor(a, b).n3.b3 == (a.n3.b3 != b.n3.b3) by { TopOfXor(a, b); }
    SelXor(a.n3.b3 != x, b.n3.b3 != y, poly);
    XorSwap(Shift(a), Shift(b), Sel(a.n3.b3 != x, poly), Sel(b.n3.b3 != y, poly));
  }

  lemma TopOfXor(a: Word, b: Word)
    ensures Xor(a, b).n3.b3 == (a.n3.b3 != b.n3.b3)
  {
  }

  lemma Step4Linear(a: Word, x: Nibble, b: Word, y: Nibble, poly: Word)
    ensures Step4(Xor(a, b), Xor4(x, y), poly) == Xor(Step4(a, x, poly), Step4(b, y, poly))
  {
    hide Xor, Step;
    var z := Xor4(x, y);
    var a1, b1 := Step(a, x.b3, poly), Step(b, y.b3, poly);
    var a2, b2 := Step(a1, x.b2, poly), Step(b1, y.b2, poly);
    var a3, b3 := Step(a2, x.b1, poly), Step(b2, y.b1, poly);
    StepLinear(a, x.b3, b, y.b3, z.b3, poly);
    StepLinear(a1, x.b2, b1, y.b2, z.b2, poly);
    StepLinear(a2, x.b1, b2, y.b1, z.b1, poly);
    StepLinear(a3, x.b0, b3, y.b0, z.b0, poly);
  }

  lemma StepByteLinear(a: Word, x: Byte, b: Word, y: Byte, poly: Word)
    ensures StepByte(Xor(a, b), XorByte(x, y), poly) == Xor(StepByte(a, x, poly), StepByte(b, y, poly))
  {
    hide Xor, Xor4, Step4, StepByte;
    StepByteIs(a, x, poly);
    StepByteIs(b, y, poly);
    StepByteIs(Xor(a, b), XorByte(x, y), poly);
    Step4Linear(a, x.hi, b, y.hi, poly);
    Step4Linear(Step4(a, x.hi, poly), x.lo, Step4(b, y.hi, poly), y.lo, poly);
  }

  /** Input equal to the upper bits only shifts. */
  lemma StepMatching(w: Word, poly: Word)
    ensures Step(w, w.n3.b3, poly) == Shift(w)
  {
    hide Xor, Shift;
    XorZero(Shift(w));
  }

  lemma Step4Matching(w: Word, poly: Word)
    ensures Step4(w, w.n3, poly) == Word(w.n2, w.n1, w.n0, Zero4)
  {
    hide Step;
    var w1 := Shift(w);
    var w2 := Shift(w1);
    var w3 := Shift(w2);
    StepMatching(w, poly);
    StepMatching(w1, poly);
    StepMatching(w2, poly);
    StepMatching(w3, poly);
  }

  lemma StepByteMatching(w: Word, poly: Word)
    ensures StepByte(w, HighByte(w), poly) == High(LowByte(w))
  {
    hide Step4, StepByte;
    StepByteIs(w, HighByte(w), poly);
    Step4Matching(w, poly);
    Step4Matching(Word(w.n2, w.n1, w.n0, Zero4), poly);
  }

  /** A zero upper half only moves the lower half up. */
  lemma StepByteLow(b: Byte, poly: Word)
    ensures StepByte(Low(b), ZeroByte, poly) == High(b)
  {
    hide StepByte;
    StepByteMatching(Low(b), poly);
  }

  lemma StepByteSelf(b: Byte, poly: Word)
    ensures StepByte(High(b), b, poly) == Zero
  {
    hide StepByte;
    StepByteMatching(High(b), poly);
  }

  lemma Halves(w: Word, b: Byte)
    ensures w == Xor(High(b), Xor(High(XorByte(b, HighByte(w))), Low(LowByte(w))))
    ensures b == XorByte(b, XorByte(ZeroByte, ZeroByte))
  {
    hide Xor4;
    Xor4Laws(b.hi, b.hi, w.n3);
    Xor4Laws(b.lo, b.lo, w.n2);
    Xor4Laws(w.n3, Zero4, Zero4);
    Xor4Laws(w.n2, Zero4, Zero4);
    Xor4Laws(w.n1, Zero4, Zero4);
    Xor4Laws(w.n0, Zero4, Zero4);
    Xor4Laws(Xor4(b.hi, w.n3), Zero4, Zero4);
    Xor4Laws(Xor4(b.lo, w.n2), Zero4, Zero4);
    Xor4Laws(Zero4, Zero4, Zero4);
  }

  /** The table form computes the same register as eight bit-serial steps. */
  lemma TableStepIsStepByte(w: Word, b: Byte, poly: Word)
    ensures TableStep(w, b, poly) == StepByte(w, b, poly)
  {
    hide Xor, XorByte, StepByte, High, Low, HighByte, LowByte;
    var u, v := High(XorByte(b, HighByte(w))), Low(LowByte(w));
    Halves(w, b);
    StepByteLinear(High(b), b, Xor(u, v), XorByte(ZeroByte, ZeroByte), poly);
    StepByteLinear(u, ZeroByte, v, ZeroByte, poly);
    StepByteLow(LowByte(w), poly);
    StepByteSelf(b, poly);
    XorZero(StepByte(Xor(u, v), XorByte(ZeroByte, ZeroByte), poly));
  }

  // ----- whole strings -----

  function XorBytes(a: seq<Byte>, b: seq<Byte>): (r: seq<Byte>)
    requires |a| == |b|
    ensures |r| == |a| && forall i :: 0 <= i < |r| ==> r[i] == XorByte(a[i], b[i])
  {
    seq(|a|, i requires 0 <= i < |a| => XorByte(a[i], b[i]))
  }

  /** The division register is linear in start value and data. */
  lemma {:induction false} DivideLinear(v: Word, a: seq<Byte>, w: Word, b: seq<Byte>, poly: Word)
    requires |a| == |b|
    ensures Divide(Xor(v, w), XorBytes(a, b), poly) == Xor(Divide(v, a, poly), Divide(w, b, poly))
    decreases |a|
  {
    hide Xor, XorByte, StepByte;
    if a != [] {
      var n := |a| - 1;
      DivideLinear(v, a[..n], w, b[..n], poly);
      assert XorBytes(a, b)[..n] == XorBytes(a[..n], b[..n]);
      StepByteLinear(Divide(v, a[..n], poly), a[n], Divide(w, b[..n], poly), b[n], poly);
    }
  }
}
