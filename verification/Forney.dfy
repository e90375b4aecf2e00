/** Error evaluation: the error evaluator polynomial, divided by the derivative of the locator at
    the inverse of an error locator, gives back the error value. */
module Forney {
  import opened Gf256
  import opened Pigeonhole
  import opened Poly
  import opened PowerSums
  import opened BerlekampMassey

  /** At an inverse point that is a root, the running quotients are z times the quotient. */
  lemma HeadIsQuot(p: seq<Sym>, x: Sym, z: Sym, k: nat)
    requires Mul(x, z) == One && Eval(p, z) == Zero && k + 1 < |p|
    ensures Head(p, x, k) == Mul(z, Quot(p, z)[k])
  {
    hide Add, Mul, Eval, Head, Quot, Pow;
    var t := Eval(p[k + 1..], z);
    HeadEval(p, x, z, k);
    QuotAt(p, z, k);
    EvalSplit(p, k + 1, z);
    AddIsZero(Eval(p[..k + 1], z), Mul(Pow(z, k + 1), t));
    PowSucc(z, k);
    MulAssoc(Pow(z, k), z, t);
    PowCancel(x, z, k, Head(p, x, k), Mul(z, t));
  }

  lemma PowCancel(x: Sym, z: Sym, k: nat, a: Sym, b: Sym)
    requires Mul(x, z) == One && Mul(Pow(z, k), a) == Mul(Pow(z, k), b)
    ensures a == b
  {
    hide Add, Mul, Pow;
    var y := Pow(z, k);
    Distrib(y, a, b);
    AddIsZero(Mul(y, a), Mul(y, b));
    MulNonZero(y, Add(a, b));
    MulZero(x);
    PowNonZero(z, k);
    AddIsZero(a, b);
  }

  lemma {:induction false} EvalSplit(p: seq<Sym>, k: nat, z: Sym)
    requires k <= |p|
    ensures Eval(p, z) == Add(Eval(p[..k], z), Mul(Pow(z, k), Eval(p[k..], z)))
  {
    hide Add, Mul;
    if k == 0 {
      assert p[0..] == p;
      MulOne(Eval(p, z));
      AddZero(Eval(p, z));
    } else {
      EvalSplit(p[1..], k - 1, z);
      assert p[..k][1..] == p[1..][..k - 1];
      assert p[1..][k - 1..] == p[k..];
      var a, b, y := Eval(p[1..][..k - 1], z), Eval(p[k..], z), Pow(z, k - 1);
      Distrib(z, a, Mul(y, b));
      MulAssoc(z, y, b);
      AddAssoc(p[0], Mul(z, a), Mul(Mul(z, y), b));
    }
  }

  // ----- weighted sums -----

  function Dot(vs: seq<Sym>, us: seq<Sym>): Sym
    requires |vs| == |us|
  {
    if vs == [] then Zero
    else
      var n := |vs| - 1;
      Add(Dot(vs[..n], us[..n]), Mul(vs[n], us[n]))
  }

  lemma {:induction false} PowerSumIsDot(hs: seq<Sym>, xs: seq<Sym>, vs: seq<Sym>, us: seq<Sym>)
    requires |hs| == |xs| == |vs| == |us|
    requires forall m :: 0 <= m < |hs| ==> hs[m] == Mul(vs[m], us[m])
    ensures PowerSum(hs, xs, 0) == Dot(vs, us)
  {
    hide Add, Mul;
    if hs != [] {
      var n := |hs| - 1;
      PowerSumIsDot(hs[..n], xs[..n], vs[..n], us[..n]);
      MulComm(hs[n], One);
      MulOne(hs[n]);
    }
  }

  lemma {:induction false} DotStep(vs: seq<Sym>, us: seq<Sym>, qs: seq<Sym>, c: Sym, rs: seq<Sym>)
    requires |vs| == |us| == |qs| == |rs|
    requires forall m :: 0 <= m < |us| ==> rs[m] == Add(us[m], Mul(qs[m], c))
    ensures Dot(vs, rs) == Add(Dot(vs, us), Mul(Dot(vs, qs), c))
  {
    hide Add, Mul;
    if vs == [] {
      MulZero(c);
      AddZero(Zero);
    } else {
      var n := |vs| - 1;
      DotStep(vs[..n], us[..n], qs[..n], c, rs[..n]);
      var v, u, q := vs[n], us[n], qs[n];
      Distrib(v, u, Mul(q, c));
      MulAssoc(v, q, c);
      DistribLeft(Dot(vs[..n], qs[..n]), Mul(v, q), c);
      AddSwap(Dot(vs[..n], us[..n]), Mul(Dot(vs[..n], qs[..n]), c), Mul(v, u), Mul(Mul(v, q), c));
    }
  }

  lemma {:induction false} DotZero(vs: seq<Sym>, us: seq<Sym>)
    requires |vs| == |us| && AllZero(us)
    ensures Dot(vs, us) == Zero
  {
    hide Add, Mul;
    if vs != [] {
      var n := |vs| - 1;
      DotZero(vs[..n], us[..n]);
      MulZero(vs[n]);
      AddZero(Zero);
    }
  }

  lemma {:induction false} DotSingle(vs: seq<Sym>, us: seq<Sym>, i: nat)
    requires |vs| == |us| && i < |us|
    requires forall m :: 0 <= m < |us| && m != i ==> us[m] == Zero
    ensures Dot(vs, us) == Mul(vs[i], us[i])
  {
    hide Add, Mul;
    var n := |vs| - 1;
    if i == n {
      DotZero(vs[..n], us[..n]);
      AddZero(Mul(vs[n], us[n]));
    } else {
      DotSingle(vs[..n], us[..n], i);
      MulZero(vs[n]);
      AddZero(Mul(vs[i], us[i]));
    }
  }

  // ----- the error evaluator -----

  /** The product of locator and syndrome series, cut at nroots terms. */
  function Evaluator(lam: seq<Sym>, s: seq<Sym>): (r: seq<Sym>)
    requires |lam| == |s|
    ensures |r| == |s| && forall k: nat :: k < |s| ==> r[k] == Disc(lam, s, k)
  {
    seq(|s|, k requires 0 <= k < |s| => Disc(lam, s, k))
  }

  function QuotsAt(lam: seq<Sym>, zs: seq<Sym>, k: nat): (r: seq<Sym>)
    requires k + 1 < |lam|
    ensures |r| == |zs| && forall m :: 0 <= m < |r| ==> r[m] == Quot(lam, zs[m])[k]
  {
    seq(|zs|, m requires 0 <= m < |zs| => Quot(lam, zs[m])[k])
  }

  function QuotValues(lam: seq<Sym>, zs: seq<Sym>, y: Sym, n: nat): (r: seq<Sym>)
    requires n < |lam|
    ensures |r| == |zs| && forall m :: 0 <= m < |r| ==> r[m] == Eval(Quot(lam, zs[m])[..n], y)
  {
    seq(|zs|, m requires 0 <= m < |zs| => Eval(Quot(lam, zs[m])[..n], y))
  }

  function Times(ws: seq<Sym>, zs: seq<Sym>): (r: seq<Sym>)
    requires |ws| == |zs|
    ensures |r| == |ws| && forall m :: 0 <= m < |r| ==> r[m] == Mul(ws[m], zs[m])
  {
    seq(|ws|, m requires 0 <= m < |ws| => Mul(ws[m], zs[m]))
  }

  /** zs are the inverses of the points xs, and all of them are roots of lam. */
  ghost predicate InverseRoots(lam: seq<Sym>, xs: seq<Sym>, zs: seq<Sym>) {
    && |xs| == |zs|
    && (forall m :: 0 <= m < |xs| ==> Mul(xs[m], zs[m]) == One)
    && AreRoots(lam, zs)
  }

  lemma EvaluatorCoefficient(lam: seq<Sym>, s: seq<Sym>, ws: seq<Sym>, xs: seq<Sym>, zs: seq<Sym>, k: nat)
    requires |lam| == |s| && k + 1 < |s| && IsPowerSum(s, ws, xs) && InverseRoots(lam, xs, zs)
    ensures Disc(lam, s, k) == Dot(Times(ws, zs), QuotsAt(lam, zs, k))
  {
    hide Add, Mul, Eval, Head, Quot, Conv, Dot, PowerSum;
    ConvPowerSum(lam, s, ws, xs, k, k);
    var hs, vs, us := Heads(ws, xs, lam, k), Times(ws, zs), QuotsAt(lam, zs, k);
    forall m | 0 <= m < |hs|
      ensures hs[m] == Mul(vs[m], us[m])
    {
      HeadIsQuot(lam, xs[m], zs[m], k);
      MulAssoc(ws[m], zs[m], us[m]);
    }
    PowerSumIsDot(hs, xs, vs, us);
  }

  lemma {:induction false} EvaluatorPrefix(
      lam: seq<Sym>, s: seq<Sym>, ws: seq<Sym>, xs: seq<Sym>, zs: seq<Sym>, y: Sym, n: nat)
    requires |lam| == |s| && n < |s| && IsPowerSum(s, ws, xs) && InverseRoots(lam, xs, zs)
    ensures Eval(Evaluator(lam, s)[..n], y) == Dot(Times(ws, zs), QuotValues(lam, zs, y, n))
  {
    hide Add, Mul, Eval, Quot, Disc, Dot, PowerSum, Pow;
    var om, vs := Evaluator(lam, s), Times(ws, zs);
    if n == 0 {
      EvalEmpty(y);
      DotZero(vs, QuotValues(lam, zs, y, 0));
    } else {
      EvaluatorPrefix(lam, s, ws, xs, zs, y, n - 1);
      assert om[..n] == om[..n - 1] + [om[n - 1]];
      EvalSnoc(om[..n - 1], om[n - 1], y);
      EvaluatorCoefficient(lam, s, ws, xs, zs, n - 1);
      var us, qs, rs := QuotValues(lam, zs, y, n - 1), QuotsAt(lam, zs, n - 1), QuotValues(lam, zs, y, n);
      forall m | 0 <= m < |us|
        ensures rs[m] == Add(us[m], Mul(qs[m], Pow(y, n - 1)))
      {
        var q := Quot(lam, zs[m]);
        assert q[..n] == q[..n - 1] + [q[n - 1]];
        EvalSnoc(q[..n - 1], q[n - 1], y);
      }
      DotStep(vs, us, qs, Pow(y, n - 1), rs);
    }
  }

  /** Forney: at the inverse of point i, the evaluator is the weight times z times the derivative. */
  lemma EvaluatorAtRoot(lam: seq<Sym>, s: seq<Sym>, ws: seq<Sym>, xs: seq<Sym>, zs: seq<Sym>, i: nat)
    requires |lam| == |s| > 0 && IsPowerSum(s, ws, xs) && InverseRoots(lam, xs, zs)
    requires Distinct(zs) && i < |zs| && Disc(lam, s, |s| - 1) == Zero
    ensures Eval(Evaluator(lam, s), zs[i]) == Mul(Mul(ws[i], zs[i]), Deriv(lam, zs[i]))
  {
    hide Add, Mul, Eval, Quot, Disc, Dot, PowerSum, Pow;
    var om, n := Evaluator(lam, s), |s| - 1;
    EvalTrim(om, n, zs[i]);
    EvaluatorPrefix(lam, s, ws, xs, zs, zs[i], n);
    var us := QuotValues(lam, zs, zs[i], n);
    forall m | 0 <= m < |us|
      ensures us[m] == if m == i then Deriv(lam, zs[i]) else Zero
    {
      var q := Quot(lam, zs[m]);
      assert q[..n] == q;
      if m == i {
        DerivIsQuot(lam, zs[i]);
      } else {
        assert zs[m] != zs[i];
        QuotRoot(lam, zs[m], zs[i]);
      }
    }
    DotSingle(Times(ws, zs), us, i);
  }
}
