/** The Galois class: logarithm and antilogarithm tables over GF(2^8) and the arithmetic built on
    them, proved against the field of module Gf256. */
module GaloisTables {
  import opened Gf256

  /** Symbols per block, 2^8 - 1; also the logarithm of zero. */
  const CodeLength: nat := 255

  /** The logarithm of a symbol as the tables hold it. */
  ghost function Power(a: Sym): (r: nat)
    ensures r <= CodeLength
  {
    if a == Zero then CodeLength else Log(a)
  }

  /** Runs the shift register once through the field, entering each power in both tables. */
  method FillTables(alphaTo: array<Sym>, indexOf: array<nat>)
    requires alphaTo.Length == 256 && indexOf.Length == 256
    modifies alphaTo, indexOf
    ensures alphaTo[255] == Zero && indexOf[0] == 255
    ensures forall k :: 0 <= k < 255 ==> alphaTo[k] == Exp(k) && indexOf[Index(Exp(k))] == k
  {
    hide Exp, Add, Index, ShiftUp;
    indexOf[0] := CodeLength;
    alphaTo[CodeLength] := Zero;
    var sr := One;
    ExpStart();
    for i := 0 to CodeLength
      invariant sr == Exp(i)
      invariant indexOf[0] == CodeLength && alphaTo[CodeLength] == Zero
      invariant forall k :: 0 <= k < i ==> alphaTo[k] == Exp(k)
      invariant forall k :: 0 <= k < i ==> indexOf[Index(Exp(k))] == k
    {
      FreshIndex(i);
      indexOf[Index(sr)] := i;
      alphaTo[i] := sr;
      ExpSucc(i);
      var carry := sr.c[7];
      sr := ShiftUp(sr);
      if carry {
        sr := Add(sr, GfPoly);
      }
    }
  }

  /** Every symbol is zero or a power of x, so no table entry is left out. */
  lemma TablesComplete(idx: seq<nat>)
    requires |idx| == 256 && idx[0] == 255
    requires forall k :: 0 <= k < 255 ==> idx[Index(Exp(k))] == k
    ensures forall a: Sym :: idx[Index(a)] == Power(a)
  {
    hide Exp, Index, Log;
    forall a: Sym
      ensures idx[Index(a)] == Power(a)
    {
      ZeroIndex();
      if a != Zero {
        assert idx[Index(Exp(Log(a)))] == Log(a);
      }
    }
  }

  class Galois {
    const alphaTo: array<Sym>
    const indexOf: array<nat>

    /** The tables are the powers of x and their inverse map. */
    ghost predicate Valid()
      reads alphaTo, indexOf
    {
      && alphaTo.Length == 256 && indexOf.Length == 256
      && (forall i :: 0 <= i < 255 ==> alphaTo[i] == Exp(i)) && alphaTo[255] == Zero
      && (forall a: Sym :: indexOf[Index(a)] == Power(a))
    }

    constructor ()
      ensures Valid() && fresh(alphaTo) && fresh(indexOf)
    {
      alphaTo := new Sym[256](_ => Zero);
      indexOf := new nat[256](_ => 0);
      new;
      FillTables(alphaTo, indexOf);
      hide Exp, Index, Power;
      TablesComplete(indexOf[..]);
    }

    /** x modulo 255, by folding the high part onto the low part. */
    method ModNn(x: nat) returns (r: nat)
      ensures r == x % CodeLength
    {
      r := x;
      while r >= CodeLength
        invariant r % CodeLength == x % CodeLength
        decreases r
      {
        r := r - CodeLength;
        FoldStep(r);
        r := r / 256 + r % 256;
      }
    }

    function PolyToPower(a: Sym): (r: nat)
      requires Valid()
      reads alphaTo, indexOf
      ensures r == Power(a)
    {
      indexOf[Index(a)]
    }

    function PowerToPoly(n: nat): (r: Sym)
      requires Valid() && n <= CodeLength
      reads alphaTo, indexOf
      ensures r == if n == CodeLength then Zero else Exp(n)
    {
      alphaTo[n]
    }

    method MultiplyPower(a: nat, b: nat) returns (r: nat)
      ensures r == (a + b) % CodeLength && r < CodeLength
    {
      r := ModNn(a + b);
    }

    /** The table product is the polynomial product modulo the field generator. */
    method MultiplyPoly(a: Sym, b: Sym) returns (r: Sym)
      requires Valid()
      ensures r == Mul(a, b)
    {
      hide Exp, Log, Mul;
      MulZero(a);
      MulZero(b);
      if a == Zero || b == Zero {
        return Zero;
      }
      var n := MultiplyPower(PolyToPower(a), PolyToPower(b));
      ExpAdd(Log(a), Log(b));
      ExpMod(Log(a) + Log(b));
      r := PowerToPoly(n);
    }

    method DividePower(a: nat, b: nat) returns (r: nat)
      requires b <= CodeLength
      ensures r == (CodeLength + a - b) % CodeLength && r < CodeLength
    {
      r := ModNn(CodeLength + a - b);
    }

    /** The table quotient undoes the product; dividing by zero returns the dividend. */
    method DividePoly(a: Sym, b: Sym) returns (r: Sym)
      requires Valid()
      ensures b != Zero ==> r == Mul(a, Inv(b)) && Mul(r, b) == a
      ensures b == Zero ==> r == a
    {
      hide Exp, Log, Mul, Inv, Index, Zero;
      if a == Zero {
        if b != Zero {
          MulZero(Inv(b));
          MulZero(b);
        }
        return Zero;
      }
      var n := DividePower(PolyToPower(a), PolyToPower(b));
      r := PowerToPoly(n);
      if b != Zero {
        QuotientPower(a, b);
      }
    }

    /** n times the logarithm a, the logarithm of the n-th power. */
    function PowPower(a: nat, n: nat): (r: nat)
      ensures r == (a * n) % CodeLength && r < CodeLength
    {
      if a == 0 then 0 else (a * n) % CodeLength
    }

    /** pow_poly is the power for every nonzero symbol. A zero symbol gives 1, whatever the exponent: its logarithm is the
        table mark 255. */
    method PowPoly(a: Sym, n: nat) returns (r: Sym)
      requires Valid()
      ensures a != Zero ==> r == Pow(a, n)
      ensures a == Zero ==> r == One
    {
      hide Exp, Log, Mul, Pow, Index;
      r := PowerToPoly(PowPower(PolyToPower(a), n));
      if a == Zero {
        MarkPower(n);
        ExpStart();
      } else {
        PowExp(Log(a), n);
        ExpMod(Log(a) * n);
      }
    }
  }

  lemma MarkPower(n: nat)
    ensures (CodeLength * n) % CodeLength == 0
  {
    ModAddMultiple(0, n);
  }

  /** The next power has an index not used so far. */
  lemma FreshIndex(i: nat)
    requires i < 255
    ensures Index(Exp(i)) != 0
    ensures forall k :: 0 <= k < i ==> Index(Exp(k)) != Index(Exp(i))
  {
    hide Exp, Index;
    NonZeroIndex(i);
    forall k | 0 <= k < i
      ensures Index(Exp(k)) != Index(Exp(i))
    {
      ExpInjective(k, i);
      if Index(Exp(k)) == Index(Exp(i)) {
        IndexInjective(Exp(k), Exp(i));
      }
    }
  }

  lemma FoldStep(r: nat)
    ensures (r / 256 + r % 256) % 255 == r % 255
    ensures r / 256 + r % 256 <= r
  {
    var q, m := r / 256, r % 256;
    assert r == 255 * q + (q + m);
    ModAddMultiple(q + m, q);
  }

  lemma ModAddMultiple(a: nat, k: nat)
    ensures (255 * k + a) % 255 == a % 255
  {
  }

  lemma QuotientPower(a: Sym, b: Sym)
    requires a != Zero && b != Zero
    ensures Exp((255 + Log(a) - Log(b)) % 255) == Mul(a, Inv(b))
    ensures Mul(Mul(a, Inv(b)), b) == a
  {
    hide Exp, Log, Mul;
    ExpMod(255 + Log(a) - Log(b));
    ExpAdd(Log(a), 255 - Log(b));
    MulInv(b);
    MulAssoc(a, Inv(b), b);
    MulComm(Inv(b), b);
    MulComm(a, One);
    MulOne(a);
  }
}
