/** Polynomials over GF(2^8): evaluation, division by a linear factor, formal derivative and root
    counting. A polynomial is the sequence of its coefficients, lowest first. */
module Poly {
  import opened Gf256
  import opened Pigeonhole

  function Eval(p: seq<Sym>, x: Sym): Sym {
    if p == [] then Zero else Add(p[0], Mul(x, Eval(p[1..], x)))
  }

  /** The terms of degree j and above. */
  function EvalFrom(p: seq<Sym>, x: Sym, j: nat): Sym
    decreases |p| - j
  {
    if j >= |p| then Zero else Add(Mul(p[j], Pow(x, j)), EvalFrom(p, x, j + 1))
  }

  lemma {:induction false} EvalFromTail(p: seq<Sym>, x: Sym, j: nat)
    requires j <= |p|
    ensures EvalFrom(p, x, j) == Mul(Pow(x, j), Eval(p[j..], x))
    decreases |p| - j
  {
    hide Add, Mul, Pow;
    if j == |p| {
      MulZero(Pow(x, j));
    } else {
      EvalFromTail(p, x, j + 1);
      var tail := Eval(p[j + 1..], x);
      assert p[j..][1..] == p[j + 1..];
      PowSucc(x, j);
      MulAssoc(Pow(x, j), x, tail);
      Distrib(Pow(x, j), p[j], Mul(x, tail));
      MulComm(p[j], Pow(x, j));
    }
  }

  lemma PowSucc(x: Sym, n: nat)
    ensures Pow(x, n + 1) == Mul(Pow(x, n), x) == Mul(x, Pow(x, n))
  {
    hide Mul;
    MulComm(x, Pow(x, n));
  }

  lemma EvalFromStart(p: seq<Sym>, x: Sym)
    ensures EvalFrom(p, x, 0) == Eval(p, x)
  {
    hide Mul, EvalFrom, Eval;
    EvalFromTail(p, x, 0);
    assert p[0..] == p;
    MulOne(Eval(p, x));
  }

  ghost predicate AllZero(p: seq<Sym>) {
    forall i :: 0 <= i < |p| ==> p[i] == Zero
  }

  lemma {:induction false} EvalAllZero(p: seq<Sym>, x: Sym)
    requires AllZero(p)
    ensures Eval(p, x) == Zero
  {
    hide Add, Mul;
    if p != [] {
      EvalAllZero(p[1..], x);
      MulZero(x);
      AddZero(Zero);
    }
  }

  lemma EvalEmpty(z: Sym)
    ensures Eval([], z) == Zero
  {
  }

  lemma {:induction false} EvalSnoc(p: seq<Sym>, c: Sym, z: Sym)
    ensures Eval(p + [c], z) == Add(Eval(p, z), Mul(c, Pow(z, |p|)))
  {
    hide Add, Mul;
    if p == [] {
      assert (p + [c])[1..] == [];
      MulZero(z);
      AddZero(c);
      MulComm(c, One);
      MulOne(c);
    } else {
      assert (p + [c])[1..] == p[1..] + [c];
      EvalSnoc(p[1..], c, z);
      var y := Pow(z, |p| - 1);
      Distrib(z, Eval(p[1..], z), Mul(c, y));
      MulAssoc(z, c, y);
      MulComm(z, c);
      MulAssoc(c, z, y);
      AddAssoc(p[0], Mul(z, Eval(p[1..], z)), Mul(c, Mul(z, y)));
    }
  }

  lemma {:induction false} EvalTrim(p: seq<Sym>, n: nat, z: Sym)
    requires n <= |p| && forall j :: n <= j < |p| ==> p[j] == Zero
    ensures Eval(p, z) == Eval(p[..n], z)
    decreases |p|
  {
    hide Add, Mul, Eval, Pow;
    if n < |p| {
      var l := |p| - 1;
      EvalTrim(p[..l], n, z);
      assert p[..l][..n] == p[..n];
      assert p == p[..l] + [p[l]];
      EvalSnoc(p[..l], p[l], z);
      MulZero(Pow(z, l));
      AddZero(Eval(p[..l], z));
    } else {
      assert p[..n] == p;
    }
  }

  // ----- division by x + z -----

  /** The quotient of p by x + z; the remainder is Eval(p, z). */
  function Quot(p: seq<Sym>, z: Sym): (q: seq<Sym>)
    ensures |q| == if p == [] then 0 else |p| - 1
  {
    if |p| <= 1 then [] else [Eval(p[1..], z)] + Quot(p[1..], z)
  }

  lemma {:induction false} QuotAt(p: seq<Sym>, z: Sym, k: nat)
    requires k + 1 < |p|
    ensures Quot(p, z)[k] == Eval(p[k + 1..], z)
  {
    hide Eval;
    if k > 0 {
      QuotAt(p[1..], z, k - 1);
      assert p[1..][k..] == p[k + 1..];
    }
  }

  lemma {:induction false} Division(p: seq<Sym>, z: Sym, y: Sym)
    ensures Eval(p, y) == Add(Mul(Add(y, z), Eval(Quot(p, z), y)), Eval(p, z))
  {
    hide Add, Mul;
    if |p| == 0 {
      MulZero(Add(y, z));
      AddZero(Zero);
    } else if |p| == 1 {
      assert Quot(p, z) == [];
      MulZero(Add(y, z));
      assert Eval(p[1..], y) == Zero == Eval(p[1..], z);
      MulZero(y);
      MulZero(z);
      AddZero(Eval(p, z));
    } else {
      Division(p[1..], z, y);
      var q := Quot(p[1..], z);
      assert Quot(p, z)[1..] == q;
      DivisionStep(p[0], y, z, Eval(p[1..], z), Eval(q, y));
    }
  }

  /** p0 + y*((y+z)*g + r) == (y+z)*(r + y*g) + (p0 + z*r). */
  lemma DivisionStep(p0: Sym, y: Sym, z: Sym, r: Sym, g: Sym)
    ensures Add(p0, Mul(y, Add(Mul(Add(y, z), g), r))) ==
            Add(Mul(Add(y, z), Add(r, Mul(y, g))), Add(p0, Mul(z, r)))
  {
    hide Add, Mul;
    var w := Mul(Add(y, z), Mul(y, g));
    var yr := Mul(y, r);
    var zr := Mul(z, r);
    assert Mul(y, Add(Mul(Add(y, z), g), r)) == Add(w, yr) by {
      Distrib(y, Mul(Add(y, z), g), r);
      MulAssoc(y, Add(y, z), g);
      MulComm(y, Add(y, z));
      MulAssoc(Add(y, z), y, g);
    }
    assert Mul(Add(y, z), Add(r, Mul(y, g))) == Add(Add(yr, zr), w) by {
      Distrib(Add(y, z), r, Mul(y, g));
      DistribLeft(y, z, r);
    }
    AddRearrange(p0, w, yr, zr);
  }

  lemma DistribLeft(a: Sym, b: Sym, c: Sym)
    ensures Mul(Add(a, b), c) == Add(Mul(a, c), Mul(b, c))
  {
    hide Add, Mul;
    MulComm(Add(a, b), c);
    Distrib(c, a, b);
    MulComm(c, a);
    MulComm(c, b);
  }

  lemma AddRearrange(p: Sym, w: Sym, a: Sym, b: Sym)
    ensures Add(p, Add(w, a)) == Add(Add(Add(a, b), w), Add(p, b))
  {
    hide Add;
    AddComm(Add(a, b), w);
    AddAssoc(w, a, b);
    AddSwap(Add(w, a), b, p, b);
    AddSelf(b);
    AddZero(Add(Add(w, a), p));
    AddComm(Add(w, a), p);
  }

  /** If z is a root and the quotient vanishes, so does p. */
  lemma {:induction false} QuotAllZero(p: seq<Sym>, z: Sym)
    requires AllZero(Quot(p, z)) && Eval(p, z) == Zero
    ensures AllZero(p)
  {
    hide Add, Mul;
    if p != [] {
      if |p| == 1 {
        assert p[1..] == [];
      } else {
        assert Quot(p, z)[0] == Eval(p[1..], z);
        assert Quot(p, z)[1..] == Quot(p[1..], z);
        QuotAllZero(p[1..], z);
      }
      MulZero(z);
      AddZero(p[0]);
    }
  }

  ghost predicate AreRoots(p: seq<Sym>, zs: seq<Sym>) {
    forall i :: 0 <= i < |zs| ==> Eval(p, zs[i]) == Zero
  }

  /** A root of p other than z is a root of the quotient. */
  lemma QuotRoot(p: seq<Sym>, z: Sym, y: Sym)
    requires Eval(p, z) == Zero && Eval(p, y) == Zero && y != z
    ensures Eval(Quot(p, z), y) == Zero
  {
    hide Add, Mul, Eval;
    Division(p, z, y);
    AddZero(Mul(Add(y, z), Eval(Quot(p, z), y)));
    MulNonZero(Add(y, z), Eval(Quot(p, z), y));
    AddIsZero(y, z);
  }

  /** A polynomial with at least as many distinct roots as coefficients is zero. */
  lemma {:induction false} RootBound(p: seq<Sym>, zs: seq<Sym>)
    requires Distinct(zs) && AreRoots(p, zs) && |p| <= |zs|
    ensures AllZero(p)
    decreases |p|
  {
    hide Add, Mul, Eval;
    if p != [] {
      var last := |zs| - 1;
      forall i | 0 <= i < last
        ensures Eval(Quot(p, zs[last]), zs[i]) == Zero
      {
        QuotRoot(p, zs[last], zs[i]);
      }
      RootBound(Quot(p, zs[last]), zs[..last]);
      QuotAllZero(p, zs[last]);
    }
  }

  // ----- formal derivative -----

  /** The formal derivative of p at z, by the product rule for p = p0 + x * rest. */
  function Deriv(p: seq<Sym>, z: Sym): Sym {
    if p == [] then Zero else Add(Eval(p[1..], z), Mul(z, Deriv(p[1..], z)))
  }

  lemma {:induction false} DerivIsQuot(p: seq<Sym>, z: Sym)
    ensures Eval(Quot(p, z), z) == Deriv(p, z)
  {
    hide Add, Mul;
    if |p| == 1 {
      assert p[1..] == [];
      MulZero(z);
      AddZero(Zero);
    } else if |p| > 1 {
      assert Quot(p, z)[1..] == Quot(p[1..], z);
      DerivIsQuot(p[1..], z);
    }
  }

  /** In characteristic 2 only the odd coefficients survive. */
  lemma DerivTwo(p: seq<Sym>, z: Sym)
    requires |p| >= 2
    ensures Deriv(p, z) == Add(p[1], Mul(Mul(z, z), Deriv(p[2..], z)))
  {
    hide Add, Mul;
    assert p[1..][1..] == p[2..];
    var e, d := Eval(p[2..], z), Deriv(p[2..], z);
    assert Eval(p[1..], z) == Add(p[1], Mul(z, e));
    assert Deriv(p[1..], z) == Add(e, Mul(z, d));
    Distrib(z, e, Mul(z, d));
    MulAssoc(z, z, d);
    var ze, zzd := Mul(z, e), Mul(Mul(z, z), d);
    assert Deriv(p, z) == Add(Add(p[1], ze), Add(ze, zzd));
    AddAssoc(p[1], ze, Add(ze, zzd));
    AddCancel(ze, zzd);
  }

  /** The terms of the derivative of degree i and above, i even. */
  function DerivFrom(p: seq<Sym>, z: Sym, i: nat): Sym
    decreases |p| - i
  {
    if i + 1 >= |p| then Zero else Add(Mul(p[i + 1], Pow(z, i)), DerivFrom(p, z, i + 2))
  }

  lemma {:induction false} DerivFromTail(p: seq<Sym>, z: Sym, i: nat)
    requires i <= |p|
    ensures DerivFrom(p, z, i) == Mul(Pow(z, i), Deriv(p[i..], z))
    decreases |p| - i
  {
    hide Add, Mul, Pow;
    var q := p[i..];
    if i == |p| {
      MulZero(Pow(z, i));
    } else if i + 1 == |p| {
      assert q[1..] == [];
      assert Deriv(q, z) == Add(Eval([], z), Mul(z, Deriv([], z)));
      MulZero(z);
      AddZero(Zero);
      MulZero(Pow(z, i));
    } else {
      DerivFromTail(p, z, i + 2);
      assert q[2..] == p[i + 2..];
      DerivTwo(q, z);
      var d := Deriv(p[i + 2..], z);
      PowSucc(z, i);
      PowSucc(z, i + 1);
      MulAssoc(Pow(z, i), z, z);
      MulAssoc(Pow(z, i), Mul(z, z), d);
      Distrib(Pow(z, i), p[i + 1], Mul(Mul(z, z), d));
      MulComm(p[i + 1], Pow(z, i));
    }
  }

  lemma DerivFromStart(p: seq<Sym>, z: Sym)
    ensures DerivFrom(p, z, 0) == Deriv(p, z)
  {
    hide Mul, DerivFrom, Deriv;
    DerivFromTail(p, z, 0);
    assert p[0..] == p;
    MulOne(Deriv(p, z));
  }

  /** A polynomial of degree below the number of its distinct roots is zero. */
  lemma RootBoundDegree(p: seq<Sym>, zs: seq<Sym>)
    requires Distinct(zs) && AreRoots(p, zs)
    requires forall j :: |zs| <= j < |p| ==> p[j] == Zero
    ensures AllZero(p)
  {
    hide Eval;
    var n := if |p| <= |zs| then |p| else |zs|;
    forall i | 0 <= i < |zs|
      ensures Eval(p[..n], zs[i]) == Zero
    {
      EvalTrim(p, n, zs[i]);
    }
    RootBound(p[..n], zs);
    assert forall j :: 0 <= j < n ==> p[j] == p[..n][j];
  }

  /** A nonzero polynomial with as many distinct roots as its degree has only simple roots. */
  lemma SimpleRoot(p: seq<Sym>, zs: seq<Sym>, k: nat)
    requires Distinct(zs) && AreRoots(p, zs) && k < |zs| && !AllZero(p)
    requires forall j :: |zs| < j < |p| ==> p[j] == Zero
    ensures Deriv(p, zs[k]) != Zero
  {
    hide Add, Mul, Eval, Deriv, Quot, Zero;
    var q := Quot(p, zs[k]);
    if Deriv(p, zs[k]) == Zero {
      DerivIsQuot(p, zs[k]);
      forall i | 0 <= i < |zs|
        ensures Eval(q, zs[i]) == Zero
      {
        if i != k {
          assert zs[i] != zs[k];
          QuotRoot(p, zs[k], zs[i]);
        }
      }
      forall j | |zs| <= j < |q|
        ensures q[j] == Zero
      {
        QuotAt(p, zs[k], j);
        EvalAllZero(p[j + 1..], zs[k]);
      }
      RootBoundDegree(q, zs);
      QuotAllZero(p, zs[k]);
    }
  }
}
