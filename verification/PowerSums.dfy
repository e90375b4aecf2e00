/** Power sums of weighted points: the syndromes of an error pattern are the power sums of the
    error values at the error locators. */
module PowerSums {
  import opened Gf256
  import opened Pigeonhole
  import opened Poly

  /** The sum of ws[m] * xs[m]^k over all points. */
  function PowerSum(ws: seq<Sym>, xs: seq<Sym>, k: nat): Sym
    requires |ws| == |xs|
  {
    if ws == [] then Zero
    else
      var n := |ws| - 1;
      Add(PowerSum(ws[..n], xs[..n], k), Mul(ws[n], Pow(xs[n], k)))
  }

  lemma {:induction false} PowerSumZero(ws: seq<Sym>, xs: seq<Sym>, k: nat)
    requires |ws| == |xs| && AllZero(ws)
    ensures PowerSum(ws, xs, k) == Zero
  {
    hide Add, Mul, Pow;
    if ws != [] {
      var n := |ws| - 1;
      PowerSumZero(ws[..n], xs[..n], k);
      MulZero(Pow(xs[n], k));
      AddZero(Zero);
    }
  }

  /** Each weight multiplied by (xs[m] + y). */
  function Lower(ws: seq<Sym>, xs: seq<Sym>, y: Sym): (r: seq<Sym>)
    requires |ws| == |xs|
    ensures |r| == |ws| && forall m :: 0 <= m < |r| ==> r[m] == Mul(ws[m], Add(xs[m], y))
  {
    seq(|ws|, m requires 0 <= m < |ws| => Mul(ws[m], Add(xs[m], y)))
  }

  lemma {:induction false} PowerSumLower(ws: seq<Sym>, xs: seq<Sym>, y: Sym, k: nat)
    requires |ws| == |xs|
    ensures PowerSum(Lower(ws, xs, y), xs, k) == Add(PowerSum(ws, xs, k + 1), Mul(y, PowerSum(ws, xs, k)))
  {
    hide Add, Mul, Pow;
    if ws == [] {
      MulZero(y);
      AddZero(Zero);
    } else {
      var n := |ws| - 1;
      PowerSumLower(ws[..n], xs[..n], y, k);
      assert Lower(ws, xs, y)[..n] == Lower(ws[..n], xs[..n], y);
      LowerTerm(ws[n], xs[n], y, k);
      var t, u := Mul(ws[n], Pow(xs[n], k + 1)), Mul(ws[n], Pow(xs[n], k));
      Distrib(y, PowerSum(ws[..n], xs[..n], k), u);
      AddSwap(PowerSum(ws[..n], xs[..n], k + 1), Mul(y, PowerSum(ws[..n], xs[..n], k)), t, Mul(y, u));
    }
  }

  lemma LowerTerm(w: Sym, x: Sym, y: Sym, k: nat)
    ensures Mul(Mul(w, Add(x, y)), Pow(x, k)) == Add(Mul(w, Pow(x, k + 1)), Mul(y, Mul(w, Pow(x, k))))
  {
    hide Add, Mul, Pow;
    MulAssoc(w, Add(x, y), Pow(x, k));
    DistribLeft(x, y, Pow(x, k));
    PowSucc(x, k);
    Distrib(w, Pow(x, k + 1), Mul(y, Pow(x, k)));
    MulAssoc(w, y, Pow(x, k));
    MulComm(w, y);
    MulAssoc(y, w, Pow(x, k));
  }

  /** Vandermonde: if the first |xs| power sums at distinct points vanish, all weights vanish. */
  lemma {:induction false} Vandermonde(ws: seq<Sym>, xs: seq<Sym>)
    requires |ws| == |xs| && Distinct(xs)
    requires forall k: nat :: k < |xs| ==> PowerSum(ws, xs, k) == Zero
    ensures AllZero(ws)
    decreases |ws|
  {
    hide Add, Mul, Pow;
    if ws != [] {
      var n := |ws| - 1;
      var y := xs[n];
      var ls := Lower(ws, xs, y);
      forall k: nat | k < n
        ensures PowerSum(ls[..n], xs[..n], k) == Zero
      {
        PowerSumLower(ws, xs, y, k);
        MulZero(y);
        AddZero(Zero);
        AddSelf(y);
        MulZero(ws[n]);
        MulZero(Pow(y, k));
        AddZero(PowerSum(ls[..n], xs[..n], k));
      }
      Vandermonde(ls[..n], xs[..n]);
      forall m | 0 <= m < n
        ensures ws[m] == Zero
      {
        assert ls[..n][m] == Zero;
        AddIsZero(xs[m], y);
        MulNonZero(ws[m], Add(xs[m], y));
      }
      PowerSumZero(ws[..n], xs[..n], 0);
      assert PowerSum(ws, xs, 0) == Zero;
      LastWeight(ws[n], y);
    }
  }

  lemma LastWeight(w: Sym, x: Sym)
    requires Add(Zero, Mul(w, Pow(x, 0))) == Zero
    ensures w == Zero
  {
    hide Add, Mul;
    AddZero(Mul(w, One));
    MulComm(w, One);
    MulOne(w);
  }

  // ----- running quotients -----

  /** p0*x^k + p1*x^(k-1) + ... + pk: coefficient k of p divided by 1 + x*y, a series in y. */
  function Head(p: seq<Sym>, x: Sym, k: nat): Sym
    requires k < |p|
  {
    if k == 0 then p[0] else Add(Mul(x, Head(p, x, k - 1)), p[k])
  }

  function Heads(ws: seq<Sym>, xs: seq<Sym>, p: seq<Sym>, k: nat): (r: seq<Sym>)
    requires |ws| == |xs| && k < |p|
    ensures |r| == |ws| && forall m :: 0 <= m < |r| ==> r[m] == Mul(ws[m], Head(p, xs[m], k))
  {
    seq(|ws|, m requires 0 <= m < |ws| => Mul(ws[m], Head(p, xs[m], k)))
  }

  /** The sum of p[j] * s[k-j] for j < n. */
  function Conv(p: seq<Sym>, s: seq<Sym>, k: nat, n: nat): Sym
    requires n <= k + 1 && n <= |p| && k < |s|
  {
    if n == 0 then Zero else Add(Conv(p, s, k, n - 1), Mul(p[n - 1], s[k - (n - 1)]))
  }

  ghost predicate IsPowerSum(s: seq<Sym>, ws: seq<Sym>, xs: seq<Sym>) {
    |ws| == |xs| && forall k: nat :: k < |s| ==> s[k] == PowerSum(ws, xs, k)
  }

  lemma {:induction false} HeadsStep(ws: seq<Sym>, xs: seq<Sym>, p: seq<Sym>, n: nat, k: nat)
    requires |ws| == |xs| && 0 < n < |p|
    ensures PowerSum(Heads(ws, xs, p, n), xs, k) ==
            Add(PowerSum(Heads(ws, xs, p, n - 1), xs, k + 1), Mul(p[n], PowerSum(ws, xs, k)))
    decreases |ws|
  {
    hide Add, Mul, Pow;
    if ws == [] {
      MulZero(p[n]);
      AddZero(Zero);
    } else {
      var l := |ws| - 1;
      HeadsStep(ws[..l], xs[..l], p, n, k);
      assert Heads(ws, xs, p, n)[..l] == Heads(ws[..l], xs[..l], p, n);
      assert Heads(ws, xs, p, n - 1)[..l] == Heads(ws[..l], xs[..l], p, n - 1);
      var h := Head(p, xs[l], n - 1);
      HeadsTerm(ws[l], xs[l], h, p[n], k);
      var t, u := Mul(Mul(ws[l], h), Pow(xs[l], k + 1)), Mul(ws[l], Pow(xs[l], k));
      Distrib(p[n], PowerSum(ws[..l], xs[..l], k), u);
      AddSwap(PowerSum(Heads(ws[..l], xs[..l], p, n - 1), xs[..l], k + 1),
              Mul(p[n], PowerSum(ws[..l], xs[..l], k)), t, Mul(p[n], u));
    }
  }

  lemma HeadsTerm(w: Sym, x: Sym, h: Sym, c: Sym, k: nat)
    ensures Mul(Mul(w, Add(Mul(x, h), c)), Pow(x, k)) ==
            Add(Mul(Mul(w, h), Pow(x, k + 1)), Mul(c, Mul(w, Pow(x, k))))
  {
    hide Add, Mul, Pow;
    var y := Pow(x, k);
    Distrib(w, Mul(x, h), c);
    DistribLeft(Mul(w, Mul(x, h)), Mul(w, c), y);
    assert Mul(Mul(w, Mul(x, h)), y) == Mul(Mul(w, h), Pow(x, k + 1)) by {
      MulComm(x, h);
      MulAssoc(w, h, x);
      MulAssoc(Mul(w, h), x, y);
      PowSucc(x, k);
    }
    assert Mul(Mul(w, c), y) == Mul(c, Mul(w, y)) by {
      MulComm(w, c);
      MulAssoc(c, w, y);
    }
  }

  /** A convolution with power sums is again a power sum, weighted by the running quotients. */
  lemma {:induction false} ConvPowerSum(p: seq<Sym>, s: seq<Sym>, ws: seq<Sym>, xs: seq<Sym>, k: nat, n: nat)
    requires IsPowerSum(s, ws, xs)
    requires n <= k < |s| && n < |p|
    ensures Conv(p, s, k, n + 1) == PowerSum(Heads(ws, xs, p, n), xs, k - n)
  {
    hide Add, Mul, PowerSum;
    if n == 0 {
      HeadsZero(ws, xs, p, k);
      AddZero(Mul(p[0], s[k]));
    } else {
      ConvPowerSum(p, s, ws, xs, k, n - 1);
      HeadsStep(ws, xs, p, n, k - n);
    }
  }

  lemma {:induction false} HeadsZero(ws: seq<Sym>, xs: seq<Sym>, p: seq<Sym>, k: nat)
    requires |ws| == |xs| && 0 < |p|
    ensures PowerSum(Heads(ws, xs, p, 0), xs, k) == Mul(p[0], PowerSum(ws, xs, k))
    decreases |ws|
  {
    hide Add, Mul, Pow;
    if ws == [] {
      MulZero(p[0]);
    } else {
      var l := |ws| - 1;
      HeadsZero(ws[..l], xs[..l], p, k);
      assert Heads(ws, xs, p, 0)[..l] == Heads(ws[..l], xs[..l], p, 0);
      var y := Pow(xs[l], k);
      MulComm(ws[l], p[0]);
      MulAssoc(p[0], ws[l], y);
      Distrib(p[0], PowerSum(ws[..l], xs[..l], k), Mul(ws[l], y));
    }
  }

  lemma {:induction false} ConvTail(p: seq<Sym>, s: seq<Sym>, k: nat, m: nat, n: nat)
    requires m <= n <= k + 1 && n <= |p| && k < |s|
    requires forall j :: m <= j < n ==> p[j] == Zero
    ensures Conv(p, s, k, n) == Conv(p, s, k, m)
  {
    hide Add, Mul;
    if m < n {
      ConvTail(p, s, k, m, n - 1);
      MulZero(s[k - (n - 1)]);
      AddZero(Conv(p, s, k, n - 1));
    }
  }

  /** With z the inverse of x, the running quotient is x^k times the value of the prefix at z. */
  lemma {:induction false} HeadEval(p: seq<Sym>, x: Sym, z: Sym, k: nat)
    requires k < |p| && Mul(x, z) == One
    ensures Mul(Pow(z, k), Head(p, x, k)) == Eval(p[..k + 1], z)
  {
    hide Add, Mul, Eval;
    EvalSnoc(p[..k], p[k], z);
    assert p[..k + 1] == p[..k] + [p[k]];
    if k == 0 {
      assert p[..0] == [];
      EvalEmpty(z);
      MulOne(p[0]);
      MulComm(p[0], One);
      AddZero(p[0]);
    } else {
      HeadEval(p, x, z, k - 1);
      var h, y := Head(p, x, k - 1), Pow(z, k - 1);
      Distrib(Pow(z, k), Mul(x, h), p[k]);
      MulComm(Pow(z, k), p[k]);
      assert Mul(Pow(z, k), Mul(x, h)) == Mul(y, h) by {
        PowSucc(z, k - 1);
        MulAssoc(y, z, Mul(x, h));
        MulAssoc(z, x, h);
        MulComm(z, x);
        MulOne(h);
      }
    }
  }
}
