/** The Fire code of clause 5.2 of TS 102 563: header check, the table of correctable errors and the
    correction of check_and_correct_6bits. */
module FireCode {
  import opened Crc
  import opened CrcTable
  import opened ByteValues

  /** x^16 + x^14 + x^13 + x^12 + x^11 + x^5 + x^3 + x^2 + x + 1 without its leading term, 0x782f. */
  const FirePoly := Word(N7, N8, N2, NF)

  // ----- syndrome -----

  /** The header in code order: the data bytes 2..10, then the parity bytes 0 and 1. */
  function CodeOrder(x: seq<Byte>): (r: seq<Byte>)
    requires |x| >= 11
    ensures |r| == 11
  {
    x[2..11] + x[..2]
  }

  function Syndrome(x: seq<Byte>): Word
    requires |x| >= 11
  {
    Divide(Zero, CodeOrder(x), FirePoly)
  }

  /** crc16 is linear over exclusive or. */
  lemma SyndromeLinear(x: seq<Byte>, e: seq<Byte>)
    requires |x| == |e| >= 11
    ensures Syndrome(XorBytes(x, e)) == Xor(Syndrome(x), Syndrome(e))
  {
    hide Xor, XorByte, Divide;
    DivideLinear(Zero, CodeOrder(x), Zero, CodeOrder(e), FirePoly);
    XorZero(Zero);
    assert CodeOrder(XorBytes(x, e)) == XorBytes(CodeOrder(x), CodeOrder(e));
  }

  // ----- errors -----

  function ShiftRightOne(b: Byte): Byte {
    Byte(Nibble(false, b.hi.b3, b.hi.b2, b.hi.b1), Nibble(b.hi.b0, b.lo.b3, b.lo.b2, b.lo.b1))
  }

  function ShiftLeftOne(b: Byte): Byte {
    Byte(Nibble(b.hi.b2, b.hi.b1, b.hi.b0, b.lo.b3), Nibble(b.lo.b2, b.lo.b1, b.lo.b0, false))
  }

  function ShiftRight(b: Byte, n: nat): Byte {
    if n == 0 then b else ShiftRightOne(ShiftRight(b, n - 1))
  }

  function ShiftLeft(b: Byte, n: nat): Byte {
    if n == 0 then b else ShiftLeftOne(ShiftLeft(b, n - 1))
  }

  lemma ShiftLeftEight(b: Byte)
    ensures ShiftLeft(b, 8) == ZeroByte
  {
    var b4 := ShiftLeft(b, 4);
    assert b4 == Byte(b.lo, Zero4) by {
      assert ShiftLeft(b, 1) == ShiftLeftOne(b);
      assert ShiftLeft(b, 2) == ShiftLeftOne(ShiftLeft(b, 1));
      assert ShiftLeft(b, 3) == ShiftLeftOne(ShiftLeft(b, 2));
    }
    assert ShiftLeft(b, 5) == ShiftLeftOne(b4);
    assert ShiftLeft(b, 6) == ShiftLeftOne(ShiftLeft(b, 5));
    assert ShiftLeft(b, 7) == ShiftLeftOne(ShiftLeft(b, 6));
  }

  /** A table entry: the bit offset in its upper byte, the error pattern in its lower byte. */
  datatype Slot = Slot(bit: nat, pattern: Byte)

  const Empty := Slot(0, ZeroByte)

  /** The error a slot stands for, over the eleven header bytes and the byte behind them. */
  function ErrorAt(s: Slot): (r: seq<Byte>)
    requires s.bit < 88
    ensures |r| == 12
    ensures forall i :: 0 <= i < 12 ==> r[i] == ErrorByte(s, i)
  {
    seq(12, i requires 0 <= i < 12 => ErrorByte(s, i))
  }

  function ErrorByte(s: Slot, i: nat): Byte {
    if i == s.bit / 8 then ShiftRight(s.pattern, s.bit % 8)
    else if i == s.bit / 8 + 1 then ShiftLeft(s.pattern, 8 - s.bit % 8) else ZeroByte
  }

  ghost predicate Proper(list: seq<Slot>) {
    forall k :: 0 <= k < |list| ==> list[k].bit < 88 && list[k].pattern != ZeroByte
  }

  /** The first slot of the list whose error has syndrome w. */
  ghost function FirstWith(list: seq<Slot>, w: Word): (r: Slot)
    requires Proper(list)
    ensures r == Empty || r in list
  {
    if list == [] then Empty
    else
      var n := |list| - 1;
      var r := FirstWith(list[..n], w);
      if r == Empty && Syndrome(ErrorAt(list[n])) == w then list[n] else r
  }

  lemma {:induction false} FirstWithSyndrome(list: seq<Slot>, w: Word)
    requires Proper(list)
    ensures FirstWith(list, w) != Empty ==>
              && FirstWith(list, w).bit < 88 && FirstWith(list, w).pattern != ZeroByte
              && Syndrome(ErrorAt(FirstWith(list, w))) == w
    ensures FirstWith(list, w) == Empty <==> forall k :: 0 <= k < |list| ==> Syndrome(ErrorAt(list[k])) != w
  {
    hide Syndrome, ErrorAt;
    if list != [] {
      FirstWithSyndrome(list[..|list| - 1], w);
    }
  }

  lemma {:induction false} FirstWithPrefix(a: seq<Slot>, b: seq<Slot>, w: Word)
    requires Proper(a) && Proper(b) && FirstWith(a, w) != Empty
    ensures FirstWith(a + b, w) == FirstWith(a, w)
    decreases |b|
  {
    hide Syndrome, ErrorAt;
    if b == [] {
      assert a + b == a;
    } else {
      FirstWithPrefix(a, b[..|b| - 1], w);
      assert (a + b)[..|a| + |b| - 1] == a + b[..|b| - 1];
    }
  }

  // ----- the errors registered at start-up -----

  /** The array pattern, in its lines of fifteen bytes. */
  const P0: seq<Byte> := [
    Byte(N1, N1), Byte(N1, N2), Byte(N1, N3), Byte(N1, N4), Byte(N1, N5), Byte(N1, N6), Byte(N1, N7), Byte(N1, N8),
    Byte(N1, N9), Byte(N1, NA), Byte(N1, NB), Byte(N1, NC), Byte(N1, NE), Byte(N1, NF), Byte(N2, N2)]
  const P1: seq<Byte> := [
    Byte(N2, N4), Byte(N2, N6), Byte(N2, N8), Byte(N2, NA), Byte(N2, NC), Byte(N2, NE), Byte(N3, N2), Byte(N3, N4),
    Byte(N3, N6), Byte(N3, N8), Byte(N3, NC), Byte(N3, NE), Byte(N4, N4), Byte(N4, N8), Byte(N4, NC)]
  const P2: seq<Byte> := [
    Byte(N5, N4), Byte(N5, N8), Byte(N5, NC), Byte(N6, N4), Byte(N6, N8), Byte(N6, NC), Byte(N7, N8), Byte(N7, NC),
    Byte(N8, N8), Byte(N9, N8), Byte(NA, N8), Byte(NB, N8), Byte(NC, N8), Byte(ND, N8), Byte(NF, N8)]
  const P3: seq<Byte> := [
    Byte(N2, N1), Byte(N2, N3), Byte(N2, N5), Byte(N2, N7), Byte(N2, N9), Byte(N2, NB), Byte(N2, ND), Byte(N3, N1),
    Byte(N3, N3), Byte(N3, N5), Byte(N3, N7), Byte(N3, N9), Byte(N3, NB), Byte(N3, ND), Byte(N3, NF)]
  const P4: seq<Byte> := [
    Byte(N4, N2), Byte(N4, N6), Byte(N4, NA), Byte(N4, NE), Byte(N5, N2), Byte(N5, N6), Byte(N5, NA), Byte(N6, N2),
    Byte(N6, N6), Byte(N6, NA), Byte(N6, NE), Byte(N7, N2), Byte(N7, N6), Byte(N7, NA), Byte(N7, NE)]
  const P5: seq<Byte> := [
    Byte(N8, N4), Byte(N8, NC), Byte(N9, N4), Byte(N9, NC), Byte(NA, N4), Byte(NA, NC), Byte(NB, N4), Byte(NC, N4),
    Byte(NC, NC), Byte(ND, N4), Byte(ND, NC), Byte(NE, N4), Byte(NE, NC), Byte(NF, N4), Byte(NF, NC)]
  const P6: seq<Byte> := [
    Byte(N0, N1), Byte(N0, N2), Byte(N0, N3), Byte(N0, N4), Byte(N0, N5), Byte(N0, N6), Byte(N0, N7), Byte(N0, N8),
    Byte(N0, N9), Byte(N0, NA), Byte(N0, NB), Byte(N0, NC), Byte(N0, ND), Byte(N0, NE), Byte(N0, NF)]
  const P7: seq<Byte> := [
    Byte(N1, N0), Byte(N1, ND), Byte(N2, N0), Byte(N3, N0), Byte(N3, NA), Byte(N4, N0), Byte(N5, N0), Byte(N6, N0),
    Byte(N7, N0), Byte(N7, N4), Byte(N8, N0), Byte(N9, N0), Byte(NA, N0), Byte(NB, N0), Byte(NC, N0)]
  const P8: seq<Byte> := [
    Byte(ND, N0), Byte(NE, N0), Byte(NE, N8), Byte(NF, N0)]

  function Patterns(): (r: seq<Byte>)
    ensures |r| == 124
  {
    P0 + P1 + P2 + P3 + P4 + P5 + P6 + P7 + P8
  }

  lemma P0NonZero()
    ensures ZeroByte !in P0
  {
  }

  lemma P1NonZero()
    ensures ZeroByte !in P1
  {
  }

  lemma P2NonZero()
    ensures ZeroByte !in P2
  {
  }

  lemma P3NonZero()
    ensures ZeroByte !in P3
  {
  }

  lemma P4NonZero()
    ensures ZeroByte !in P4
  {
  }

  lemma P5NonZero()
    ensures ZeroByte !in P5
  {
  }

  lemma P6NonZero()
    ensures ZeroByte !in P6
  {
  }

  lemma P7NonZero()
    ensures ZeroByte !in P7
  {
  }

  lemma P8NonZero()
    ensures ZeroByte !in P8
  {
  }

  lemma PatternsNonZero(j: nat)
    requires j < 124
    ensures Patterns()[j] != ZeroByte
  {
    P0NonZero();
    P1NonZero();
    P2NonZero();
    P3NonZero();
    P4NonZero();
    P5NonZero();
    P6NonZero();
    P7NonZero();
    P8NonZero();
    hide P0, P1, P2, P3, P4, P5, P6, P7, P8;
    assert Patterns()[j] in Patterns();
  }

  /** The errors of one byte position: patterns lo..hi-1, moved down by sh bits. */
  function RowList(i: nat, lo: nat, hi: nat, sh: nat, n: nat): (r: seq<Slot>)
    requires lo + n <= hi <= 124
    ensures |r| == n
  {
    seq(n, j requires 0 <= j < n => Slot(8 * i + sh, Patterns()[lo + j]))
  }

  function BlockList(rows: nat, lo: nat, hi: nat, sh: nat): seq<Slot>
    requires lo <= hi <= 124
  {
    if rows == 0 then [] else BlockList(rows - 1, lo, hi, sh) + RowList(rows - 1, lo, hi, sh, hi - lo)
  }

  lemma {:induction false} BlockProper(rows: nat, lo: nat, hi: nat, sh: nat)
    requires lo <= hi <= 124 && sh < 8 && rows <= 11
    ensures Proper(BlockList(rows, lo, hi, sh))
    ensures forall k :: 0 <= k < |BlockList(rows, lo, hi, sh)| ==> BlockList(rows, lo, hi, sh)[k].bit % 8 == sh
  {
    hide Patterns;
    if rows > 0 {
      BlockProper(rows - 1, lo, hi, sh);
      RowProper(rows - 1, lo, hi, sh, hi - lo);
    }
  }

  lemma RowProper(i: nat, lo: nat, hi: nat, sh: nat, n: nat)
    requires lo + n <= hi <= 124 && sh < 8 && i < 11
    ensures Proper(RowList(i, lo, hi, sh, n))
    ensures forall k :: 0 <= k < n ==> RowList(i, lo, hi, sh, n)[k].bit % 8 == sh
  {
    hide Patterns;
    var r := RowList(i, lo, hi, sh, n);
    forall k | 0 <= k < |r|
      ensures r[k].bit < 88 && r[k].pattern != ZeroByte && r[k].bit % 8 == sh
    {
      assert r[k] == Slot(8 * i + sh, Patterns()[lo + k]);
      PatternsNonZero(lo + k);
    }
  }

  /** All errors fill_syndrome_table visits, in its order. */
  function Plan(): seq<Slot> {
    BlockList(11, 0, 124, 0) + (BlockList(10, 0, 45, 4) + (BlockList(10, 45, 75, 2) + BlockList(10, 60, 90, 6)))
  }

  lemma PlanProper()
    ensures Proper(Plan())
  {
    hide BlockList;
    BlockProper(11, 0, 124, 0);
    BlockProper(10, 0, 45, 4);
    BlockProper(10, 45, 75, 2);
    BlockProper(10, 60, 90, 6);
  }

  // ----- the class -----

  /** The byte table is the table of the Fire polynomial. */
  ghost predicate CrcTableOk(t: array<Word>)
    reads t
  {
    t.Length == 256 && forall b: Byte :: t[ByteValue(b)] == Entry(b, FirePoly)
  }

  /** Entry w of the syndrome table is the first listed error with syndrome w. */
  ghost predicate Registers(t: array<Slot>, list: seq<Slot>)
    requires Proper(list)
    reads t
  {
    t.Length == 65536 && forall w: Word :: t[WordValue(w)] == FirstWith(list, w)
  }

  /** fill_crc_table: each entry by eight shifts. */
  method FillCrcTable(t: array<Word>)
    requires t.Length == 256
    modifies t
    ensures CrcTableOk(t)
  {
    hide ByteOf, ByteValue, Entry, StepByte, Step;
    for i := 0 to 256
      invariant forall k :: 0 <= k < i ==> t[k] == Entry(ByteOf(k), FirePoly)
    {
      var crc := High(ByteOf(i));
      crc := ShiftEight(crc);
      EntryIs(ByteOf(i));
      t[i] := crc;
    }
    forall b: Byte
      ensures t[ByteValue(b)] == Entry(b, FirePoly)
    {
      ByteOfValue(b);
    }
  }

  lemma EntryIs(b: Byte)
    ensures Entry(b, FirePoly) == StepByte(High(b), ZeroByte, FirePoly)
  {
  }

  /** Eight times: shift, and subtract the polynomial if a bit left the register. */
  method ShiftEight(w: Word) returns (crc: Word)
    ensures crc == StepByte(w, ZeroByte, FirePoly)
  {
    hide Step;
    crc := w;
    for j := 0 to 8
      invariant crc == Iterate(w, j)
    {
      StepZero(crc);
      if crc.n3.b3 {
        crc := Xor(Shift(crc), FirePoly);
      } else {
        crc := Shift(crc);
      }
    }
    EightSteps(w);
  }

  function Iterate(w: Word, n: nat): Word {
    if n == 0 then w else Step(Iterate(w, n - 1), false, FirePoly)
  }

  lemma StepZero(w: Word)
    ensures Step(w, false, FirePoly) == if w.n3.b3 then Xor(Shift(w), FirePoly) else Shift(w)
  {
    hide Xor, Shift;
    XorZero(Shift(w));
  }

  lemma EightSteps(w: Word)
    ensures Iterate(w, 8) == StepByte(w, ZeroByte, FirePoly)
  {
    hide Step, StepByte;
    StepByteIs(w, ZeroByte, FirePoly);
    assert Iterate(w, 2) == Step(Step(w, false, FirePoly), false, FirePoly) by {
      assert Iterate(w, 1) == Step(Iterate(w, 0), false, FirePoly);
    }
    assert Iterate(w, 4) == Step(Step(Iterate(w, 2), false, FirePoly), false, FirePoly) by {
      assert Iterate(w, 3) == Step(Iterate(w, 2), false, FirePoly);
    }
    assert Iterate(w, 6) == Step(Step(Iterate(w, 4), false, FirePoly), false, FirePoly) by {
      assert Iterate(w, 5) == Step(Iterate(w, 4), false, FirePoly);
    }
    assert Iterate(w, 8) == Step(Step(Iterate(w, 6), false, FirePoly), false, FirePoly) by {
      assert Iterate(w, 7) == Step(Iterate(w, 6), false, FirePoly);
    }
  }

  lemma SyndromeStart(d: seq<Byte>)
    ensures Divide(Zero, d[..0], FirePoly) == Zero
  {
  }

  lemma SyndromeNext(d: seq<Byte>, i: nat)
    requires i < |d|
    ensures Divide(Zero, d[..i + 1], FirePoly) == TableStep(Divide(Zero, d[..i], FirePoly), d[i], FirePoly)
  {
    hide StepByte, TableStep;
    assert d[..i + 1][..i] == d[..i];
    TableStepIsStepByte(Divide(Zero, d[..i], FirePoly), d[i], FirePoly);
  }

  /** crc16: the syndrome of a header. */
  method Crc16(t: array<Word>, x: array<Byte>) returns (crc: Word)
    requires CrcTableOk(t) && x.Length >= 11
    ensures crc == Syndrome(x[..])
  {
    hide Divide, ByteValue, Entry;
    ghost var d := CodeOrder(x[..]);
    crc := Zero;
    SyndromeStart(d);
    for i := 2 to 11
      invariant crc == Divide(Zero, d[..i - 2], FirePoly)
    {
      SyndromeNext(d, i - 2);
      var pos := XorByte(x[i], HighByte(crc));
      crc := Xor(t[ByteValue(pos)], High(LowByte(crc)));
    }
    for i := 0 to 2
      invariant crc == Divide(Zero, d[..9 + i], FirePoly)
    {
      SyndromeNext(d, 9 + i);
      var pos := XorByte(x[i], HighByte(crc));
      crc := Xor(t[ByteValue(pos)], High(LowByte(crc)));
    }
    assert d[..11] == d;
  }

  /** Enters one error unless its syndrome is already taken. */
  method Register(t: array<Word>, table: array<Slot>, error: array<Byte>, s: Slot, ghost list: seq<Slot>)
    requires CrcTableOk(t) && Proper(list + [s]) && Proper(list) && Registers(table, list) && s.bit < 88
    requires error.Length == 12 && error[..] == ErrorAt(s)
    modifies table
    ensures Registers(table, list + [s])
  {
    hide Syndrome, ErrorAt, WordValue, CrcTableOk;
    var syndrome := Crc16(t, error);
    if table[WordValue(syndrome)] == Empty {
      table[WordValue(syndrome)] := s;
    }
    forall w: Word
      ensures table[WordValue(w)] == FirstWith(list + [s], w)
    {
      FirstWithSnoc(list, s, w);
      if WordValue(w) == WordValue(syndrome) {
        WordValueInjective(w, syndrome);
      }
    }
  }

  lemma FirstWithSnoc(list: seq<Slot>, s: Slot, w: Word)
    requires Proper(list) && Proper(list + [s])
    ensures s.bit < 88
    ensures FirstWith(list + [s], w) ==
            if FirstWith(list, w) == Empty && Syndrome(ErrorAt(s)) == w then s else FirstWith(list, w)
  {
    hide Syndrome, ErrorAt;
    assert (list + [s])[|list|] == s;
    assert (list + [s])[..|list|] == list;
  }

  /** One of the four loop nests of fill_syndrome_table. */
  method FillBlock(t: array<Word>, table: array<Slot>, rows: nat, lo: nat, hi: nat, sh: nat, ghost list: seq<Slot>)
    requires CrcTableOk(t) && rows <= 11 && lo <= hi <= 124 && sh < 8
    requires Proper(list) && Registers(table, list)
    modifies table
    ensures Proper(list + BlockList(rows, lo, hi, sh)) && Registers(table, list + BlockList(rows, lo, hi, sh))
  {
    hide Patterns, Registers, CrcTableOk, RowList;
    BlockProper(rows, lo, hi, sh);
    assert list + BlockList(0, lo, hi, sh) == list;
    for i := 0 to rows
      invariant CrcTableOk(t) && Proper(list + BlockList(i, lo, hi, sh))
      invariant Registers(table, list + BlockList(i, lo, hi, sh))
    {
      FillRow(t, table, i, lo, hi, sh, list + BlockList(i, lo, hi, sh));
      assert list + BlockList(i + 1, lo, hi, sh) == list + BlockList(i, lo, hi, sh) + RowList(i, lo, hi, sh, hi - lo);
    }
  }

  method FillRow(t: array<Word>, table: array<Slot>, i: nat, lo: nat, hi: nat, sh: nat, ghost list: seq<Slot>)
    requires CrcTableOk(t) && i < 11 && lo <= hi <= 124 && sh < 8
    requires Proper(list) && Registers(table, list)
    modifies table
    ensures Proper(list + RowList(i, lo, hi, sh, hi - lo)) && Registers(table, list + RowList(i, lo, hi, sh, hi - lo))
  {
    hide Patterns, Registers, CrcTableOk, ShiftRight, ShiftLeft, Proper;
    assert list + RowList(i, lo, hi, sh, 0) == list;
    for j := 0 to hi - lo
      invariant CrcTableOk(t) && Proper(list + RowList(i, lo, hi, sh, j))
      invariant Registers(table, list + RowList(i, lo, hi, sh, j))
    {
      RowStep(i, lo, hi, sh, j, list);
      var s := Slot(8 * i + sh, Patterns()[lo + j]);
      var error := new Byte[12](_ => ZeroByte);
      error[i] := ShiftRight(s.pattern, sh);
      error[i + 1] := ShiftLeft(s.pattern, 8 - sh);
      assert error[..] == ErrorAt(s);
      Register(t, table, error, s, list + RowList(i, lo, hi, sh, j));
    }
  }

  lemma RowStep(i: nat, lo: nat, hi: nat, sh: nat, j: nat, list: seq<Slot>)
    requires i < 11 && lo + j < hi <= 124 && sh < 8 && Proper(list)
    ensures list + RowList(i, lo, hi, sh, j + 1) ==
            list + RowList(i, lo, hi, sh, j) + [Slot(8 * i + sh, Patterns()[lo + j])]
    ensures Proper(list + RowList(i, lo, hi, sh, j + 1))
  {
    hide Patterns;
    RowProper(i, lo, hi, sh, j + 1);
  }

  /** fill_syndrome_table: four loop nests over a cleared table. */
  method FillSyndromeTable(t: array<Word>, table: array<Slot>)
    requires CrcTableOk(t) && table.Length == 65536
    requires forall i :: 0 <= i < 65536 ==> table[i] == Empty
    modifies table
    ensures Proper(Plan()) && Registers(table, Plan())
  {
    hide *;
    StartsEmpty(table);
    FillBlock(t, table, 11, 0, 124, 0, []);
    ghost var l := [] + BlockList(11, 0, 124, 0);
    FillBlock(t, table, 10, 0, 45, 4, l);
    l := l + BlockList(10, 0, 45, 4);
    FillBlock(t, table, 10, 45, 75, 2, l);
    l := l + BlockList(10, 45, 75, 2);
    FillBlock(t, table, 10, 60, 90, 6, l);
    PlanIs();
    PlanProper();
  }

  lemma PlanIs()
    ensures Plan() == [] + BlockList(11, 0, 124, 0) + BlockList(10, 0, 45, 4) + BlockList(10, 45, 75, 2)
                      + BlockList(10, 60, 90, 6)
  {
    hide BlockList;
  }

  class FirecodeChecker {
    const crcTable: array<Word>
    const syndromeTable: array<Slot>

    ghost predicate Valid()
      reads crcTable, syndromeTable
    {
      CrcTableOk(crcTable) && Proper(Plan()) && Registers(syndromeTable, Plan())
    }

    constructor ()
      ensures Valid() && fresh(crcTable) && fresh(syndromeTable)
    {
      crcTable := new Word[256](_ => Zero);
      syndromeTable := new Slot[65536](_ => Empty);
      new;
      FillCrcTable(crcTable);
      FillSyndromeTable(crcTable, syndromeTable);
    }

    /** check_and_correct_6bits: true if the header is valid or a registered error was removed. */
    method CheckAndCorrect(x: array<Byte>) returns (ok: bool)
      requires Valid() && x.Length >= 12
      modifies x
      ensures Corrected(old(x[..]), x[..], ok)
    {
      hide *;
      CheckerParts();
      ghost var x0 := x[..];
      var syndrome := Crc16(crcTable, x);
      CorrectedIs(x0, x0, true);
      CorrectedIs(x0, x0, false);
      if syndrome == Zero {
        return true;
      }
      var s := syndromeTable[WordValue(syndrome)];
      if s.pattern != ZeroByte {
        var i, k := s.bit / 8, s.bit % 8;
        x[i] := XorByte(x[i], ShiftRight(s.pattern, k));
        x[i + 1] := XorByte(x[i + 1], ShiftLeft(s.pattern, 8 - k));
        CorrectedIs(x0, x[..], true);
        AppliedIs(x0, x[..], s);
        return true;
      }
      return false;
    }

    lemma CheckerParts()
      requires Valid()
      ensures CrcTableOk(crcTable) && Proper(Plan()) && syndromeTable.Length == 65536
      ensures forall w: Word :: syndromeTable[WordValue(w)] == FirstWith(Plan(), w)
      ensures forall w: Word :: FirstWith(Plan(), w).pattern != ZeroByte ==> FirstWith(Plan(), w).bit < 88
      ensures forall w: Word :: FirstWith(Plan(), w).pattern == ZeroByte <==> FirstWith(Plan(), w) == Empty
    {
      hide Plan, CrcTableOk, Syndrome, ErrorAt;
      forall w: Word
        ensures FirstWith(Plan(), w).pattern != ZeroByte ==> FirstWith(Plan(), w).bit < 88
        ensures FirstWith(Plan(), w).pattern == ZeroByte <==> FirstWith(Plan(), w) == Empty
      {
        FirstWithSyndrome(Plan(), w);
      }
    }
  }

  lemma StartsEmpty(t: array<Slot>)
    requires t.Length == 65536 && forall i :: 0 <= i < 65536 ==> t[i] == Empty
    ensures Proper([]) && Registers(t, [])
  {
    hide WordValue;
  }

  /** The header with the error of a slot added. */
  function Applied(x: seq<Byte>, s: Slot): (r: seq<Byte>)
    requires |x| >= 12 && s.bit < 88
    ensures |r| == |x|
  {
    XorBytes(x[..12], ErrorAt(s)) + x[12..]
  }

  /** What check_and_correct_6bits does to a header x, leaving y. */
  ghost predicate Corrected(x: seq<Byte>, y: seq<Byte>, ok: bool)
    requires |x| >= 12
  {
    PlanProper();
    var s := FirstWith(Plan(), Syndrome(x));
    if Syndrome(x) == Zero then ok && y == x
    else if s == Empty then !ok && y == x
    else ok && s.bit < 88 && y == Applied(x, s)
  }

  lemma CorrectedIs(x: seq<Byte>, y: seq<Byte>, ok: bool)
    requires |x| >= 12 && Proper(Plan())
    ensures Corrected(x, y, ok) <==>
            var s := FirstWith(Plan(), Syndrome(x));
            if Syndrome(x) == Zero then ok && y == x
            else if s == Empty then !ok && y == x
            else ok && s.bit < 88 && y == Applied(x, s)
  {
    hide Plan, Syndrome, Applied, FirstWith;
  }

  lemma AppliedIs(x: seq<Byte>, y: seq<Byte>, s: Slot)
    requires |x| == |y| >= 12 && s.bit < 88
    requires var i, k := s.bit / 8, s.bit % 8;
             y == x[i := XorByte(x[i], ShiftRight(s.pattern, k))][i + 1 := XorByte(x[i + 1], ShiftLeft(s.pattern, 8 - k))]
    ensures y == Applied(x, s)
  {
    hide ShiftRight, ShiftLeft, XorByte;
    forall j | 0 <= j < 12
      ensures y[j] == XorByte(x[j], ErrorByte(s, j))
    {
      XorZeroByte(x[j]);
    }
  }

  lemma XorZeroByte(b: Byte)
    ensures XorByte(b, ZeroByte) == b
  {
  }

  lemma {:induction false} AppliedSyndrome(x: seq<Byte>, s: Slot)
    requires |x| >= 12 && s.bit < 88
    ensures Syndrome(Applied(x, s)) == Xor(Syndrome(x), Syndrome(ErrorAt(s)))
  {
    hide Xor, XorByte, Divide, ErrorAt;
    SyndromeLinear(x[..12], ErrorAt(s));
    assert CodeOrder(Applied(x, s)) == CodeOrder(XorBytes(x[..12], ErrorAt(s)));
    assert CodeOrder(x) == CodeOrder(x[..12]);
  }

  lemma AppliedTwice(c: seq<Byte>, s: Slot, t: Slot)
    requires |c| >= 12 && s.bit < 88 && t.bit < 88
    ensures Applied(Applied(c, s), t) == c <==> ErrorAt(s) == ErrorAt(t)
  {
    hide XorByte, ErrorByte;
    var y := Applied(Applied(c, s), t);
    var e, f := ErrorAt(s), ErrorAt(t);
    forall i | 0 <= i < 12
      ensures y[i] == c[i] <==> e[i] == f[i]
    {
      XorByteTwice(c[i], e[i], f[i]);
    }
    assert y == c <==> forall i :: 0 <= i < 12 ==> y[i] == c[i];
  }

  lemma XorByteTwice(c: Byte, e: Byte, f: Byte)
    ensures XorByte(XorByte(c, e), f) == c <==> e == f
  {
  }

  /** A true result always leaves a valid header; a false one leaves the header alone and means that its syndrome is
      neither zero nor that of any error the table was filled with. */
  lemma CorrectionSound(x: seq<Byte>, y: seq<Byte>, ok: bool)
    requires |x| >= 12 && Corrected(x, y, ok)
    ensures |y| == |x|
    ensures ok ==> Syndrome(y) == Zero
    ensures !ok ==> y == x
    ensures ok <==> Syndrome(x) == Zero || exists k :: 0 <= k < |Plan()| && Plan()[k].bit < 88
                                                      && Syndrome(ErrorAt(Plan()[k])) == Syndrome(x)
  {
    hide *;
    PlanProper();
    ProperIs(Plan());
    CorrectedIs(x, y, ok);
    var s := FirstWith(Plan(), Syndrome(x));
    FirstWithSyndrome(Plan(), Syndrome(x));
    if Syndrome(x) != Zero && s != Empty {
      AppliedSyndrome(x, s);
      XorIsZero(Syndrome(x), Syndrome(x));
    }
  }

  lemma ProperIs(list: seq<Slot>)
    requires Proper(list)
    ensures forall k :: 0 <= k < |list| ==> list[k].bit < 88
  {
  }
}
