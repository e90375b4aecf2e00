/** The field GF(2^8) of the Reed-Solomon code: an element is a polynomial over GF(2) of degree
    below 8, added coefficient by coefficient and multiplied modulo x^8 + x^4 + x^3 + x^2 + 1
    (the field generator 0435). */
module Gf256 {
  import opened Modular
  import opened Pigeonhole

  /** The coefficients of 1, x, .., x^7, that is, the bits of a u8 from the lowest up. */
  type Bits = s: seq<bool> | |s| == 8 witness seq(8, _ => false)

  datatype Sym = Sym(c: Bits)

  const Zero := Sym([false, false, false, false, false, false, false, false])
  const One := Sym([true, false, false, false, false, false, false, false])

  /** The field generator 0435 without x^8. */
  const GfPoly := Sym([true, false, true, true, true, false, false, false])

  function BitXor(x: seq<bool>, y: seq<bool>): (r: seq<bool>)
    requires |x| == |y|
    ensures |r| == |x| && forall i :: 0 <= i < |x| ==> r[i] == (x[i] != y[i])
  {
    seq(|x|, i requires 0 <= i < |x| => x[i] != y[i])
  }

  function Add(a: Sym, b: Sym): Sym {
    Sym(BitXor(a.c, b.c))
  }

  function ShiftUp(a: Sym): Sym {
    Sym([false] + a.c[..7])
  }

  /** Multiplication by x: shift up, and subtract the field generator if x^8 appears. */
  function XTime(a: Sym): Sym {
    if a.c[7] then Add(ShiftUp(a), GfPoly) else ShiftUp(a)
  }

  function Sel(p: bool, a: Sym): Sym {
    if p then a else Zero
  }

  /** The sum of x^i * a over the set bits i. */
  function MulBits(a: Sym, bits: seq<bool>): Sym
    decreases |bits|
  {
    if bits == [] then Zero else Add(Sel(bits[0], a), MulBits(XTime(a), bits[1..]))
  }

  /** Polynomial product reduced by the field generator. */
  function Mul(a: Sym, b: Sym): Sym {
    MulBits(a, b.c)
  }

  /** The n-th power of the field element x. */
  function Exp(n: nat): Sym {
    if n == 0 then One else XTime(Exp(n - 1))
  }

  function Value(x: seq<bool>): (r: nat)
    ensures r < Pow2(|x|)
  {
    if x == [] then 0 else 2 * Value(x[1..]) + (if x[0] then 1 else 0)
  }

  /** The value of the byte, used to index tables. */
  function Index(a: Sym): (r: nat)
    ensures r < 256
  {
    Pow2Eight();
    Value(a.c)
  }

  lemma Pow2Eight()
    ensures Pow2(8) == 256
  {
    assert Pow2(4) == 16;
    Pow2Add(4, 4);
  }

  lemma {:induction false} ValueInjective(x: seq<bool>, y: seq<bool>)
    requires |x| == |y| && Value(x) == Value(y)
    ensures x == y
  {
    hide Pow2;
    if x != [] {
      assert x[0] == y[0] && Value(x[1..]) == Value(y[1..]);
      ValueInjective(x[1..], y[1..]);
      assert x == [x[0]] + x[1..] && y == [y[0]] + y[1..];
    }
  }

  lemma IndexInjective(a: Sym, b: Sym)
    requires Index(a) == Index(b)
    ensures a == b
  {
    hide Value;
    ValueInjective(a.c, b.c);
  }

  lemma {:induction false} ValueOfZeros(x: seq<bool>)
    requires forall i :: 0 <= i < |x| ==> !x[i]
    ensures Value(x) == 0
  {
    if x != [] {
      ValueOfZeros(x[1..]);
    }
  }

  lemma ZeroIndex()
    ensures Index(Zero) == 0
  {
    hide Value;
    ValueOfZeros(Zero.c);
  }

  // ----- addition -----

  lemma AddComm(a: Sym, b: Sym)
    ensures Add(a, b) == Add(b, a)
  {
    assert BitXor(a.c, b.c) == BitXor(b.c, a.c);
  }

  lemma AddAssoc(a: Sym, b: Sym, c: Sym)
    ensures Add(Add(a, b), c) == Add(a, Add(b, c))
  {
    assert BitXor(BitXor(a.c, b.c), c.c) == BitXor(a.c, BitXor(b.c, c.c));
  }

  lemma AddSelf(a: Sym)
    ensures Add(a, a) == Zero
  {
    assert BitXor(a.c, a.c) == Zero.c;
  }

  lemma AddZero(a: Sym)
    ensures Add(a, Zero) == a && Add(Zero, a) == a
  {
    assert BitXor(a.c, Zero.c) == a.c;
    AddComm(a, Zero);
  }

  lemma AddSwap(a: Sym, b: Sym, c: Sym, d: Sym)
    ensures Add(Add(a, b), Add(c, d)) == Add(Add(a, c), Add(b, d))
  {
    hide Add;
    AddAssoc(a, b, Add(c, d));
    AddAssoc(b, c, d);
    AddComm(b, c);
    AddAssoc(c, b, d);
    AddAssoc(a, c, Add(b, d));
  }

  lemma AddCancel(a: Sym, b: Sym)
    ensures Add(a, Add(a, b)) == b && Add(Add(b, a), a) == b
  {
    hide Add;
    AddAssoc(a, a, b);
    AddAssoc(b, a, a);
    AddSelf(a);
    AddZero(b);
  }

  lemma AddIsZero(a: Sym, b: Sym)
    ensures Add(a, b) == Zero <==> a == b
  {
    hide Add;
    AddSelf(b);
    AddZero(a);
    AddZero(b);
    AddAssoc(a, b, b);
  }

  // ----- multiplication as a linear map -----

  lemma ShiftAdd(a: Sym, b: Sym)
    ensures ShiftUp(Add(a, b)) == Add(ShiftUp(a), ShiftUp(b))
    ensures Add(a, b).c[7] == (a.c[7] != b.c[7])
  {
    assert [false] + BitXor(a.c, b.c)[..7] == BitXor([false] + a.c[..7], [false] + b.c[..7]);
  }

  lemma XTimeAdd(a: Sym, b: Sym)
    ensures XTime(Add(a, b)) == Add(XTime(a), XTime(b))
  {
    hide Add, ShiftUp;
    var u, v, g := ShiftUp(a), ShiftUp(b), GfPoly;
    ShiftAdd(a, b);
    AddSwap(u, g, v, g);
    AddSelf(g);
    AddZero(Add(u, v));
    AddAssoc(u, v, g);
    AddAssoc(u, g, v);
    AddComm(g, v);
  }

  lemma XTimeZero(a: Sym)
    ensures XTime(a) == Zero <==> a == Zero
  {
    var u := ShiftUp(a);
    if a.c[7] {
      assert Add(u, GfPoly).c[0];
    } else if u == Zero {
      assert forall i :: 0 <= i < 7 ==> a.c[i] == u.c[i + 1];
      assert a.c == Zero.c;
    } else {
      assert a == Zero ==> u.c == Zero.c;
    }
  }

  lemma {:induction false} MulBitsAdd(a: Sym, x: seq<bool>, y: seq<bool>)
    requires |x| == |y|
    ensures MulBits(a, BitXor(x, y)) == Add(MulBits(a, x), MulBits(a, y))
    decreases |x|
  {
    hide Add, XTime;
    if x == [] {
      AddZero(Zero);
    } else {
      var u, v := MulBits(XTime(a), x[1..]), MulBits(XTime(a), y[1..]);
      assert BitXor(x, y)[1..] == BitXor(x[1..], y[1..]);
      MulBitsAdd(XTime(a), x[1..], y[1..]);
      SelAdd(x[0], y[0], a);
      AddSwap(Sel(x[0], a), Sel(y[0], a), u, v);
    }
  }

  lemma SelAdd(p: bool, q: bool, a: Sym)
    ensures Sel(p != q, a) == Add(Sel(p, a), Sel(q, a))
  {
    hide Add;
    AddSelf(a);
    AddZero(a);
    AddZero(Zero);
  }

  lemma {:induction false} MulBitsXTime(a: Sym, x: seq<bool>)
    ensures MulBits(XTime(a), x) == XTime(MulBits(a, x))
    decreases |x|
  {
    hide Add, XTime;
    XTimeZero(Zero);
    if x != [] {
      MulBitsXTime(XTime(a), x[1..]);
      XTimeAdd(Sel(x[0], a), MulBits(XTime(a), x[1..]));
    }
  }

  /** n zero bits, then x. */
  function Raised(n: nat, x: seq<bool>): Sym
    requires n + |x| == 8
  {
    Sym(seq(n, _ => false) + x)
  }

  function Unit(n: nat): Sym
    requires n < 8
  {
    Raised(n, [true] + seq(7 - n, _ => false))
  }

  lemma RaisedStep(n: nat, x: seq<bool>)
    requires n + |x| == 8 && x != []
    ensures Raised(n, x) == Add(Sel(x[0], Unit(n)), Raised(n + 1, x[1..]))
    ensures n < 7 ==> XTime(Unit(n)) == Unit(n + 1)
  {
    assert Raised(n, x).c == BitXor(Sel(x[0], Unit(n)).c, Raised(n + 1, x[1..]).c);
    if n < 7 {
      assert ShiftUp(Unit(n)).c == Unit(n + 1).c;
    }
  }

  /** x^n times the bits of x, without overflow. */
  lemma {:induction false} MulBitsUnit(n: nat, x: seq<bool>)
    requires n + |x| == 8 && n < 8
    ensures MulBits(Unit(n), x) == Raised(n, x)
    decreases |x|
  {
    hide Add, XTime, Unit, Raised;
    RaisedStep(n, x);
    if n < 7 {
      MulBitsUnit(n + 1, x[1..]);
    } else {
      assert x[1..] == [];
      RaisedNone();
    }
  }

  lemma RaisedNone()
    ensures Raised(8, []) == Zero
  {
    assert Raised(8, []).c == Zero.c;
  }

  lemma MulOne(b: Sym)
    ensures Mul(One, b) == b
  {
    hide MulBits;
    MulBitsUnit(0, b.c);
    assert Unit(0).c == One.c;
    assert Raised(0, b.c).c == b.c;
  }

  // ----- powers of x -----

  lemma {:induction false} ExpNonZero(n: nat)
    ensures Exp(n) != Zero
  {
    hide XTime;
    if n != 0 {
      ExpNonZero(n - 1);
      XTimeZero(Exp(n - 1));
    }
  }

  lemma {:induction false} ExpAdd(i: nat, j: nat)
    ensures Mul(Exp(i), Exp(j)) == Exp(i + j)
  {
    hide XTime, MulBits;
    if i == 0 {
      MulOne(Exp(j));
    } else {
      ExpAdd(i - 1, j);
      MulBitsXTime(Exp(i - 1), Exp(j).c);
    }
  }

  /** The eight coefficients side by side, to compute with. */
  datatype Oct = Oct(b0: bool, b1: bool, b2: bool, b3: bool, b4: bool, b5: bool, b6: bool, b7: bool)

  function Pack(o: Oct): Sym {
    Sym([o.b0, o.b1, o.b2, o.b3, o.b4, o.b5, o.b6, o.b7])
  }

  function Up(o: Oct): Oct {
    Oct(o.b7, o.b0, o.b1 != o.b7, o.b2 != o.b7, o.b3 != o.b7, o.b4, o.b5, o.b6)
  }

  lemma SameBits(x: Bits, y: Bits)
    requires x[0] == y[0] && x[1] == y[1] && x[2] == y[2] && x[3] == y[3]
    requires x[4] == y[4] && x[5] == y[5] && x[6] == y[6] && x[7] == y[7]
    ensures x == y
  {
  }

  lemma PackBits(o: Oct)
    ensures var x := Pack(o).c;
            && x[0] == o.b0 && x[1] == o.b1 && x[2] == o.b2 && x[3] == o.b3
            && x[4] == o.b4 && x[5] == o.b5 && x[6] == o.b6 && x[7] == o.b7
  {
  }

  lemma ShiftBits(a: Sym)
    ensures !ShiftUp(a).c[0] && forall i :: 0 < i < 8 ==> ShiftUp(a).c[i] == a.c[i - 1]
  {
  }

  lemma PolyBits()
    ensures var x := GfPoly.c;
            x[0] && !x[1] && x[2] && x[3] && x[4] && !x[5] && !x[6] && !x[7]
  {
  }

  lemma PackShift(o: Oct)
    ensures ShiftUp(Pack(o)) == Pack(Oct(false, o.b0, o.b1, o.b2, o.b3, o.b4, o.b5, o.b6)) && Pack(o).c[7] == o.b7
  {
    hide Pack, ShiftUp;
    var p := Oct(false, o.b0, o.b1, o.b2, o.b3, o.b4, o.b5, o.b6);
    PackBits(o);
    PackBits(p);
    ShiftBits(Pack(o));
    SameBits(ShiftUp(Pack(o)).c, Pack(p).c);
  }

  lemma PackPoly(o: Oct)
    ensures Add(Pack(o), GfPoly) == Pack(Oct(!o.b0, o.b1, !o.b2, !o.b3, !o.b4, o.b5, o.b6, o.b7))
  {
    hide Pack, GfPoly, BitXor;
    var p := Oct(!o.b0, o.b1, !o.b2, !o.b3, !o.b4, o.b5, o.b6, o.b7);
    PackBits(o);
    PackBits(p);
    PolyBits();
    SameBits(Add(Pack(o), GfPoly).c, Pack(p).c);
  }

  lemma PackUp(o: Oct)
    ensures XTime(Pack(o)) == Pack(Up(o))
  {
    hide Pack, ShiftUp, Add;
    PackShift(o);
    PackPoly(Oct(false, o.b0, o.b1, o.b2, o.b3, o.b4, o.b5, o.b6));
  }

  lemma PackInjective(o: Oct, p: Oct)
    requires Pack(o) == Pack(p)
    ensures o == p
  {
    hide Pack;
    PackBits(o);
    PackBits(p);
  }

  function Up4(o: Oct): Oct {
    Oct(o.b4, o.b5, o.b4 != o.b6, (o.b4 != o.b5) != o.b7,
        o.b0 != ((o.b4 != o.b5) != o.b6), o.b1 != ((o.b5 != o.b6) != o.b7), o.b2 != (o.b6 != o.b7), o.b3 != o.b7)
  }

  lemma UpFour(o: Oct)
    ensures Up(Up(Up(Up(o)))) == Up4(o)
  {
  }

  lemma ExpPlus4(n: nat, o: Oct)
    requires Exp(n) == Pack(o)
    ensures Exp(n + 4) == Pack(Up4(o))
  {
    hide Exp, XTime, Pack, Up, Up4;
    ExpSucc(n);
    ExpSucc(n + 1);
    ExpSucc(n + 2);
    ExpSucc(n + 3);
    PackUp(o);
    PackUp(Up(o));
    PackUp(Up(Up(o)));
    PackUp(Up(Up(Up(o))));
    UpFour(o);
  }

  lemma ExpPlus17(n: nat, o: Oct)
    requires Exp(n) == Pack(o)
    ensures Exp(n + 17) == Pack(Up(Up4(Up4(Up4(Up4(o))))))
  {
    hide Exp, XTime, Pack, Up, Up4;
    ExpPlus4(n, o);
    ExpPlus4(n + 4, Up4(o));
    ExpPlus4(n + 8, Up4(Up4(o)));
    ExpPlus4(n + 12, Up4(Up4(Up4(o))));
    ExpSucc(n + 16);
    PackUp(Up4(Up4(Up4(Up4(o)))));
  }

  const Oct1 := Oct(true, false, false, false, false, false, false, false)

  lemma PackOne()
    ensures Pack(Oct1) == One && Exp(0) == Pack(Oct1)
  {
  }

  /** x has order dividing 255, and Exp(15), Exp(51), Exp(85) differ from 1. */
  lemma ExpKeyPowers()
    ensures Exp(255) == One && Exp(15) != One && Exp(51) != One && Exp(85) != One
  {
    hide Exp, Pack, XTime;
    PackOne();
    ExpPlus4(0, Oct1);
    ExpPlus4(4, Up4(Oct1));
    ExpPlus4(8, Up4(Up4(Oct1)));
    var o12 := Up4(Up4(Up4(Oct1)));
    ExpSucc(12);
    ExpSucc(13);
    ExpSucc(14);
    PackUp(o12);
    PackUp(Up(o12));
    PackUp(Up(Up(o12)));
    if Exp(15) == One {
      PackInjective(Up(Up(Up(o12))), Oct1);
    }
    ExpPlus17(0, Oct1);
    ExpPlus17(17, Oct(false, false, false, true, true, false, false, true));
    ExpPlus17(34, Oct(false, true, true, true, false, false, true, false));
    ExpPlus17(51, Oct(false, true, false, true, false, false, false, false));
    ExpPlus17(68, Oct(true, false, false, true, true, false, false, true));
    ExpPlus17(85, Oct(false, true, true, false, true, false, true, true));
    ExpPlus17(102, Oct(false, false, true, false, false, false, true, false));
    ExpPlus17(119, Oct(true, true, false, false, true, false, false, true));
    ExpPlus17(136, Oct(true, true, true, true, false, false, true, false));
    ExpPlus17(153, Oct(false, true, false, false, true, false, false, true));
    ExpPlus17(170, Oct(true, true, true, false, true, false, true, true));
    ExpPlus17(187, Oct(false, false, true, true, true, false, true, true));
    ExpPlus17(204, Oct(true, false, true, true, true, false, true, true));
    ExpPlus17(221, Oct(true, false, true, false, false, false, true, false));
    ExpPlus17(238, Oct(true, true, false, true, false, false, false, false));
    if Exp(51) == One {
      PackInjective(Oct(false, true, false, true, false, false, false, false), Oct1);
    }
    if Exp(85) == One {
      PackInjective(Oct(false, true, true, false, true, false, true, true), Oct1);
    }
  }

  lemma ExpStart()
    ensures Exp(0) == One
  {
  }

  lemma ExpSucc(n: nat)
    ensures Exp(n + 1) == XTime(Exp(n))
  {
  }

  lemma MulOneRight(a: nat)
    ensures Mul(Exp(a), One) == Exp(a)
  {
    hide Mul;
    ExpAdd(a, 0);
  }

  lemma {:induction false} ExpMultiple(d: nat, k: nat)
    requires Exp(d) == One
    ensures Exp(d * k) == One
  {
    hide Mul, XTime;
    if k != 0 {
      ExpMultiple(d, k - 1);
      assert d * k == d * (k - 1) + d;
      ExpAdd(d * (k - 1), d);
      MulOneRight(d * (k - 1));
    }
  }

  lemma {:induction false} ExpRemainder(n: nat, d: nat)
    requires 0 < d && Exp(d) == One
    ensures Exp(n % d) == Exp(n)
  {
    hide Mul, XTime, Exp;
    ExpMultiple(d, n / d);
    assert n == n % d + d * (n / d);
    ExpAdd(n % d, d * (n / d));
    MulOneRight(n % d);
  }

  /** The least positive exponent giving 1. */
  lemma LeastOrder(d: nat) returns (m: nat)
    requires 0 < d && Exp(d) == One
    ensures 0 < m <= d && Exp(m) == One
    ensures forall k :: 0 < k < m ==> Exp(k) != One
  {
    hide XTime, Exp;
    m := d;
    while exists k :: 0 < k < m && Exp(k) == One
      invariant 0 < m <= d && Exp(m) == One
      decreases m
    {
      var k :| 0 < k < m && Exp(k) == One;
      m := k;
    }
  }

  lemma FactorsOf255(m: nat, q: nat)
    requires m * q == 255 && m < 255
    ensures 15 % m == 0 || 51 % m == 0 || 85 % m == 0
  {
    assert m != 0 && q > 1;
    if m <= 15 {
      assert m == 1 || m == 3 || m == 5 || m == 15;
    } else {
      assert q <= 15 by { assert q >= 16 ==> m * q >= 16 * 16; }
      assert q == 3 || q == 5 || q == 15;
    }
  }

  lemma NoSmallOrder(d: nat)
    requires 0 < d < 255
    ensures Exp(d) != One
  {
    hide Exp;
    if Exp(d) == One {
      ExpKeyPowers();
      var m := LeastOrder(d);
      ExpRemainder(255, m);
      assert 255 % m == 0;
      FactorsOf255(m, 255 / m);
      ExpRemainder(15, m);
      ExpRemainder(51, m);
      ExpRemainder(85, m);
      ExpStart();
      assert false;
    }
  }

  /** x is primitive: its first 255 powers differ. */
  lemma ExpInjective(i: nat, j: nat)
    requires i < j < 255
    ensures Exp(i) != Exp(j)
  {
    hide XTime, Exp, Mul;
    if Exp(i) == Exp(j) {
      ExpAdd(255 - j, j);
      ExpAdd(255 - j, i);
      ExpKeyPowers();
      NoSmallOrder(255 - j + i);
      assert false;
    }
  }

  /** The same for exponents 1 to 255, as the root search counts them. */
  lemma ExpInjectiveFromOne(i: nat, j: nat)
    requires 1 <= i < j <= 255
    ensures Exp(i) != Exp(j)
  {
    hide Exp;
    ExpKeyPowers();
    ExpStart();
    ExpInjective(if j == 255 then 0 else i, if j == 255 then i else j);
  }

  lemma ExpMod(n: nat)
    ensures Exp(n % 255) == Exp(n)
  {
    hide Exp;
    ExpKeyPowers();
    ExpRemainder(n, 255);
  }

  ghost function PowerIndex(i: nat): (r: nat)
    ensures r == Index(Exp(i)) - 1 < 255
  {
    NonZeroIndex(i);
    Index(Exp(i)) - 1
  }

  ghost function PowerIndices(): (s: seq<nat>)
    ensures |s| == 255 && forall i :: 0 <= i < 255 ==> s[i] == PowerIndex(i)
  {
    seq(255, i requires 0 <= i < 255 => PowerIndex(i))
  }

  lemma IndexPositive(a: Sym)
    ensures 0 < Index(a) <==> a != Zero
  {
    hide Index;
    ZeroIndex();
    if Index(a) == 0 {
      IndexInjective(a, Zero);
    }
  }

  lemma NonZeroIndex(i: nat)
    ensures 0 < Index(Exp(i))
  {
    hide Exp, Index;
    ExpNonZero(i);
    IndexPositive(Exp(i));
  }

  /** Every nonzero element is a power of x. */
  lemma ExpOnto(a: Sym)
    requires a != Zero
    ensures exists i :: 0 <= i < 255 && Exp(i) == a
  {
    hide Exp, Index;
    var s := PowerIndices();
    forall i, j | 0 <= i < j < 255
      ensures s[i] != s[j]
    {
      ExpInjective(i, j);
      if Index(Exp(i)) == Index(Exp(j)) {
        IndexInjective(Exp(i), Exp(j));
      }
    }
    IndexPositive(a);
    Onto(s, Index(a) - 1);
    var i :| 0 <= i < 255 && s[i] == Index(a) - 1;
    IndexInjective(Exp(i), a);
  }

  /** The discrete logarithm to base x. */
  ghost function Log(a: Sym): (r: nat)
    requires a != Zero
    ensures r < 255 && Exp(r) == a
  {
    ExpOnto(a);
    var i :| 0 <= i < 255 && Exp(i) == a;
    i
  }

  // ----- field laws -----

  lemma {:induction false} MulBitsZero(x: seq<bool>)
    ensures MulBits(Zero, x) == Zero
  {
    hide XTime, Add;
    if x != [] {
      XTimeZero(Zero);
      MulBitsZero(x[1..]);
      AddZero(Zero);
    }
  }

  lemma Distrib(a: Sym, b: Sym, c: Sym)
    ensures Mul(a, Add(b, c)) == Add(Mul(a, b), Mul(a, c))
  {
    hide MulBits;
    MulBitsAdd(a, b.c, c.c);
  }

  lemma MulZero(a: Sym)
    ensures Mul(a, Zero) == Zero && Mul(Zero, a) == Zero
  {
    hide Add, MulBits;
    MulBitsZero(a.c);
    Distrib(a, Zero, Zero);
    AddZero(Zero);
    AddSelf(Mul(a, Zero));
  }

  lemma MulComm(a: Sym, b: Sym)
    ensures Mul(a, b) == Mul(b, a)
  {
    hide Mul, Exp, Log;
    MulZero(a);
    MulZero(b);
    if a != Zero && b != Zero {
      ExpAdd(Log(a), Log(b));
      ExpAdd(Log(b), Log(a));
    }
  }

  lemma MulAssoc(a: Sym, b: Sym, c: Sym)
    ensures Mul(Mul(a, b), c) == Mul(a, Mul(b, c))
  {
    hide Mul, Exp, Log;
    MulZero(a);
    MulZero(b);
    MulZero(c);
    MulZero(Mul(a, b));
    MulZero(Mul(b, c));
    if a != Zero && b != Zero && c != Zero {
      ExpAdd(Log(a), Log(b));
      ExpAdd(Log(b), Log(c));
      ExpAdd(Log(a) + Log(b), Log(c));
      ExpAdd(Log(a), Log(b) + Log(c));
    }
  }

  lemma MulNonZero(a: Sym, b: Sym)
    requires Mul(a, b) == Zero
    ensures a == Zero || b == Zero
  {
    hide Mul, Exp, Log;
    if a != Zero && b != Zero {
      ExpAdd(Log(a), Log(b));
      ExpNonZero(Log(a) + Log(b));
    }
  }

  ghost function Inv(a: Sym): (r: Sym)
    requires a != Zero
  {
    Exp(255 - Log(a))
  }

  lemma MulInv(a: Sym)
    requires a != Zero
    ensures Mul(a, Inv(a)) == One && Inv(a) != Zero
  {
    hide Mul, Exp, Log;
    ExpAdd(Log(a), 255 - Log(a));
    ExpKeyPowers();
    ExpNonZero(255 - Log(a));
  }

  function Pow(x: Sym, n: nat): Sym {
    if n == 0 then One else Mul(x, Pow(x, n - 1))
  }

  lemma MulSwap(a: Sym, b: Sym, c: Sym, d: Sym)
    ensures Mul(Mul(a, b), Mul(c, d)) == Mul(Mul(a, c), Mul(b, d))
  {
    hide Mul;
    MulAssoc(a, b, Mul(c, d));
    MulAssoc(b, c, d);
    MulComm(b, c);
    MulAssoc(c, b, d);
    MulAssoc(a, c, Mul(b, d));
  }

  lemma {:induction false} PowExp(i: nat, n: nat)
    ensures Pow(Exp(i), n) == Exp(i * n)
  {
    hide Mul, Exp;
    if n == 0 {
      ExpStart();
      assert i * n == 0;
    } else {
      PowExp(i, n - 1);
      assert i * n == i + i * (n - 1);
      ExpAdd(i, i * (n - 1));
    }
  }

  lemma {:induction false} PowNonZero(x: Sym, n: nat)
    requires x != Zero
    ensures Pow(x, n) != Zero
  {
    hide Mul;
    if n != 0 {
      PowNonZero(x, n - 1);
      if Pow(x, n) == Zero {
        MulNonZero(x, Pow(x, n - 1));
      }
    }
  }
}
