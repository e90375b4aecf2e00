/** The Berlekamp-Massey iteration of ReedSolomon::computeLambda, as a function on values, with its
    invariant for every syndrome vector and its length bound for syndromes of few errors. */
module BerlekampMassey {
  import opened Gf256
  import opened Pigeonhole
  import opened Poly
  import opened PowerSums

  /** lam and cor hold nroots coefficients each; len is the register length L, err the discrepancy. */
  datatype State = State(lam: seq<Sym>, cor: seq<Sym>, len: nat, err: Sym)

  function AddScaled(p: seq<Sym>, c: Sym, q: seq<Sym>): (r: seq<Sym>)
    requires |p| == |q|
    ensures |r| == |p| && forall i :: 0 <= i < |r| ==> r[i] == Add(p[i], Mul(c, q[i]))
  {
    seq(|p|, i requires 0 <= i < |p| => Add(p[i], Mul(c, q[i])))
  }

  lemma AddScaledAt(p: seq<Sym>, c: Sym, q: seq<Sym>, i: nat)
    requires |p| == |q| && i < |p|
    ensures AddScaled(p, c, q)[i] == Add(p[i], Mul(c, q[i]))
  {
    hide *;
  }

  function Scaled(p: seq<Sym>, c: Sym): (r: seq<Sym>)
    ensures |r| == |p| && forall i :: 0 <= i < |r| ==> r[i] == Mul(p[i], c)
  {
    seq(|p|, i requires 0 <= i < |p| => Mul(p[i], c))
  }

  /** Multiplication by x, dropping the coefficient that leaves the array. */
  function Shift(q: seq<Sym>): (r: seq<Sym>)
    requires |q| > 0
    ensures |r| == |q| && r[0] == Zero && forall i :: 0 < i < |r| ==> r[i] == q[i - 1]
  {
    [Zero] + q[..|q| - 1]
  }

  /** Coefficient k of the product of p and the syndrome series. */
  function Disc(p: seq<Sym>, s: seq<Sym>, k: nat): Sym
    requires k < |s| == |p|
  {
    Conv(p, s, k, k + 1)
  }

  function Init(s: seq<Sym>): (st: State)
    requires |s| >= 2
    ensures |st.lam| == |st.cor| == |s|
  {
    State([One] + seq(|s| - 1, _ => Zero), [Zero, One] + seq(|s| - 2, _ => Zero), 0, s[0])
  }

  predicate Lengthens(st: State, k: nat) {
    2 * st.len < k && st.err != Zero
  }

  function NextLam(st: State): (r: seq<Sym>)
    requires |st.lam| == |st.cor|
    ensures |r| == |st.lam|
  {
    AddScaled(st.lam, st.err, st.cor)
  }

  function NextLen(st: State, k: nat): (r: nat) {
    if Lengthens(st, k) then k - st.len else st.len
  }

  ghost function NextCor(st: State, k: nat): (r: seq<Sym>)
    requires |st.lam| == |st.cor| > 0
    ensures |r| == |st.cor|
  {
    Shift(if Lengthens(st, k) then Scaled(st.lam, Inv(st.err)) else st.cor)
  }

  /** One pass of the while loop with K == k. */
  ghost function Step(st: State, s: seq<Sym>, k: nat): (r: State)
    requires |st.lam| == |st.cor| == |s| && k < |s|
    ensures |r.lam| == |r.cor| == |s|
  {
    var lam := NextLam(st);
    State(lam, NextCor(st, k), NextLen(st, k), Disc(lam, s, k))
  }

  /** The state at the loop head when K == k. */
  ghost function Run(s: seq<Sym>, k: nat): (r: State)
    requires 1 <= k <= |s| && |s| >= 2
    ensures |r.lam| == |r.cor| == |s|
  {
    if k == 1 then Init(s) else Step(Run(s, k - 1), s, k - 1)
  }

  /** The error locator polynomial computeLambda ends with, and the register length behind it. */
  ghost function Locator(s: seq<Sym>): (r: seq<Sym>)
    requires |s| >= 2
    ensures |r| == |s|
  {
    NextLam(Run(s, |s|))
  }

  ghost function Length(s: seq<Sym>): nat
    requires |s| >= 2
  {
    NextLen(Run(s, |s|), |s|)
  }

  // ----- the invariant -----

  /** lam is a feedback polynomial of length len for the first n syndromes. */
  ghost predicate Generates(lam: seq<Sym>, s: seq<Sym>, len: nat, n: nat)
    requires |lam| == |s| && n <= |s|
  {
    && |lam| > 0 && lam[0] == One
    && (forall j :: len < j < |lam| ==> lam[j] == Zero)
    && (forall k: nat :: len <= k < n ==> Disc(lam, s, k) == Zero)
  }

  /** cor is the correction that has discrepancy 1 at n and 0 where len forbids any. */
  ghost predicate Corrects(cor: seq<Sym>, s: seq<Sym>, len: nat, n: nat)
    requires |cor| == |s| && len <= n < |s|
  {
    && cor[0] == Zero
    && (forall j :: n + 1 - len < j < |cor| ==> cor[j] == Zero)
    && (forall k: nat :: n + 1 - len <= k < n ==> Disc(cor, s, k) == Zero)
    && (len > 0 ==> Disc(cor, s, n) == One)
  }

  ghost predicate Good(st: State, s: seq<Sym>, k: nat)
    requires |st.lam| == |st.cor| == |s| && 1 <= k <= |s|
  {
    && st.len < k
    && Generates(st.lam, s, st.len, k - 1)
    && st.err == Disc(st.lam, s, k - 1)
    && Corrects(st.cor, s, st.len, k - 1)
  }

  lemma {:induction false} ConvAddScaled(p: seq<Sym>, c: Sym, q: seq<Sym>, s: seq<Sym>, k: nat, n: nat)
    requires n <= k + 1 && n <= |p| == |q| && k < |s|
    ensures Conv(AddScaled(p, c, q), s, k, n) == Add(Conv(p, s, k, n), Mul(c, Conv(q, s, k, n)))
  {
    hide Add, Mul;
    if n == 0 {
      MulZero(c);
      AddZero(Zero);
    } else {
      ConvAddScaled(p, c, q, s, k, n - 1);
      var a, b, y := p[n - 1], q[n - 1], s[k - (n - 1)];
      DistribLeft(a, Mul(c, b), y);
      MulAssoc(c, b, y);
      Distrib(c, Conv(q, s, k, n - 1), Mul(b, y));
      AddSwap(Conv(p, s, k, n - 1), Mul(c, Conv(q, s, k, n - 1)), Mul(a, y), Mul(c, Mul(b, y)));
    }
  }

  lemma {:induction false} ConvScaled(p: seq<Sym>, c: Sym, s: seq<Sym>, k: nat, n: nat)
    requires n <= k + 1 && n <= |p| && k < |s|
    ensures Conv(Scaled(p, c), s, k, n) == Mul(c, Conv(p, s, k, n))
  {
    hide Add, Mul;
    if n == 0 {
      MulZero(c);
    } else {
      ConvScaled(p, c, s, k, n - 1);
      var a, y := p[n - 1], s[k - (n - 1)];
      MulComm(a, c);
      MulAssoc(c, a, y);
      Distrib(c, Conv(p, s, k, n - 1), Mul(a, y));
    }
  }

  lemma {:induction false} ConvShift(q: seq<Sym>, s: seq<Sym>, k: nat, n: nat)
    requires n <= k + 1 && n + 1 <= |q| && k + 1 < |s|
    ensures Conv(Shift(q), s, k + 1, n + 1) == Conv(q, s, k, n)
  {
    hide Add, Mul;
    if n == 0 {
      MulZero(s[k + 1]);
      AddZero(Zero);
    } else {
      ConvShift(q, s, k, n - 1);
    }
  }

  lemma DiscAdd(st: State, s: seq<Sym>, k: nat)
    requires |st.lam| == |st.cor| == |s| && k < |s|
    ensures Disc(NextLam(st), s, k) == Add(Disc(st.lam, s, k), Mul(st.err, Disc(st.cor, s, k)))
  {
    hide Add, Mul, Conv;
    ConvAddScaled(st.lam, st.err, st.cor, s, k, k + 1);
  }

  /** The corrected lam handles one more syndrome, with the new length. */
  lemma LamStep(st: State, s: seq<Sym>, k: nat)
    requires |st.lam| == |st.cor| == |s| && 1 <= k <= |s| && Good(st, s, k)
    ensures Generates(NextLam(st), s, NextLen(st, k), k)
  {
    hide Add, Mul, Disc;
    var lam, len, n := NextLam(st), NextLen(st, k), k - 1;
    MulZero(st.err);
    AddZero(One);
    forall j | len < j < |lam|
      ensures lam[j] == Zero
    {
      LamDegree(st, s, k, j);
    }
    forall i: nat | len <= i < k
      ensures Disc(lam, s, i) == Zero
    {
      DiscAdd(st, s, i);
      if i == n {
        if st.err == Zero {
          MulZero(Disc(st.cor, s, n));
          AddZero(Zero);
        } else {
          assert st.len > 0;
          MulComm(st.err, One);
          MulOne(st.err);
          AddSelf(st.err);
        }
      } else {
        assert Disc(st.lam, s, i) == Zero;
        AddZero(Zero);
        MulZero(Disc(st.cor, s, i));
        assert st.err != Zero ==> Disc(st.cor, s, i) == Zero;
      }
    }
  }

  lemma LamDegree(st: State, s: seq<Sym>, k: nat, j: nat)
    requires |st.lam| == |st.cor| == |s| && 1 <= k <= |s| && Good(st, s, k)
    requires NextLen(st, k) < j < |s|
    ensures NextLam(st)[j] == Zero
  {
    hide Add, Mul, Disc;
    assert st.lam[j] == Zero;
    assert st.err != Zero ==> st.cor[j] == Zero;
    MulZero(st.err);
    MulZero(st.cor[j]);
    AddZero(Zero);
  }

  lemma CorStep(st: State, s: seq<Sym>, k: nat)
    requires |st.lam| == |st.cor| == |s| && 1 <= k < |s| && Good(st, s, k)
    ensures Corrects(NextCor(st, k), s, NextLen(st, k), k)
  {
    hide Add, Mul, Conv, Inv;
    var cor, len := NextCor(st, k), NextLen(st, k);
    if Lengthens(st, k) {
      var c := Inv(st.err);
      var q := Scaled(st.lam, c);
      MulInv(st.err);
      MulZero(c);
      forall i: nat | k + 1 - len <= i <= k
        ensures Disc(cor, s, i) == if i == k then One else Zero
      {
        ConvShift(q, s, i - 1, i);
        ConvScaled(st.lam, c, s, i - 1, i);
        MulComm(c, st.err);
        assert i < k ==> Disc(st.lam, s, i - 1) == Zero;
      }
    } else {
      forall i: nat | k + 1 - len <= i <= k
        ensures Disc(cor, s, i) == Disc(st.cor, s, i - 1)
      {
        ConvShift(st.cor, s, i - 1, i);
      }
    }
  }

  lemma InitGood(s: seq<Sym>)
    requires |s| >= 2
    ensures Good(Init(s), s, 1)
  {
    hide Add, Mul;
    var st := Init(s);
    assert Disc(st.lam, s, 0) == Add(Conv(st.lam, s, 0, 0), Mul(st.lam[0], s[0]));
    MulOne(s[0]);
    AddZero(s[0]);
  }

  /** The invariant holds at every loop head, whatever the syndromes are. */
  lemma {:induction false} RunGood(s: seq<Sym>, k: nat)
    requires 1 <= k <= |s| && |s| >= 2
    ensures Good(Run(s, k), s, k)
  {
    hide Add, Mul, Disc, Generates, Corrects;
    if k == 1 {
      InitGood(s);
    } else {
      RunGood(s, k - 1);
      LamStep(Run(s, k - 1), s, k - 1);
      CorStep(Run(s, k - 1), s, k - 1);
    }
  }

  /** computeLambda's result is a feedback polynomial for all nroots syndromes. */
  lemma LocatorGenerates(s: seq<Sym>)
    requires |s| >= 2
    ensures Generates(Locator(s), s, Length(s), |s|)
  {
    hide Add, Mul, Disc, Generates, Corrects;
    RunGood(s, |s|);
    LamStep(Run(s, |s|), s, |s|);
  }

  // ----- syndromes of few errors -----

  lemma DiscPowerSum(lam: seq<Sym>, s: seq<Sym>, ws: seq<Sym>, xs: seq<Sym>, len: nat, k: nat)
    requires |lam| == |s| && len <= k < |s| && IsPowerSum(s, ws, xs)
    requires forall j :: len < j < |lam| ==> lam[j] == Zero
    ensures Disc(lam, s, k) == PowerSum(Heads(ws, xs, lam, len), xs, k - len)
  {
    hide Conv, PowerSum;
    ConvTail(lam, s, k, len + 1, k + 1);
    ConvPowerSum(lam, s, ws, xs, k, len);
  }

  /** A register that explains at least as many syndromes beyond its length as there are points
      annihilates every point. */
  lemma PointsAnnihilated(lam: seq<Sym>, s: seq<Sym>, ws: seq<Sym>, xs: seq<Sym>, len: nat, n: nat)
    requires |lam| == |s| && len < |s| && n <= |s| && Generates(lam, s, len, n)
    requires IsPowerSum(s, ws, xs) && Distinct(xs) && len + |xs| <= n
    ensures AllZero(Heads(ws, xs, lam, len))
  {
    hide Disc, PowerSum;
    forall k: nat | k < |xs|
      ensures PowerSum(Heads(ws, xs, lam, len), xs, k) == Zero
    {
      DiscPowerSum(lam, s, ws, xs, len, len + k);
    }
    Vandermonde(Heads(ws, xs, lam, len), xs);
  }

  /** A lengthening step never goes beyond the number of points. */
  lemma LengthenBound(st: State, s: seq<Sym>, ws: seq<Sym>, xs: seq<Sym>, k: nat)
    requires |st.lam| == |st.cor| == |s| && 1 <= k <= |s| && Good(st, s, k)
    requires IsPowerSum(s, ws, xs) && Distinct(xs)
    requires Lengthens(st, k)
    ensures k - st.len <= |xs|
  {
    hide Disc, PowerSum, Corrects;
    if |xs| < k - st.len {
      PointsAnnihilated(st.lam, s, ws, xs, st.len, k - 1);
      DiscPowerSum(st.lam, s, ws, xs, st.len, k - 1);
      PowerSumZero(Heads(ws, xs, st.lam, st.len), xs, k - 1 - st.len);
      assert false;
    }
  }

  lemma {:induction false} RunLength(s: seq<Sym>, ws: seq<Sym>, xs: seq<Sym>, k: nat)
    requires 1 <= k <= |s| && |s| >= 2
    requires IsPowerSum(s, ws, xs) && Distinct(xs)
    ensures Run(s, k).len <= |xs|
  {
    hide Disc, Good, NextLam, NextCor;
    if k > 1 {
      var st := Run(s, k - 1);
      RunLength(s, ws, xs, k - 1);
      RunGood(s, k - 1);
      if Lengthens(st, k - 1) {
        LengthenBound(st, s, ws, xs, k - 1);
      }
    }
  }

  /** The register is no longer than the number of points behind the syndromes. */
  lemma LengthBound(s: seq<Sym>, ws: seq<Sym>, xs: seq<Sym>)
    requires |s| >= 2 && IsPowerSum(s, ws, xs) && Distinct(xs)
    ensures Length(s) <= |xs|
  {
    hide Disc, Good, NextLam, NextCor, Run;
    var st := Run(s, |s|);
    RunLength(s, ws, xs, |s|);
    RunGood(s, |s|);
    if Lengthens(st, |s|) {
      LengthenBound(st, s, ws, xs, |s|);
    }
  }

  /** For at most nroots/2 points with nonzero weights, the inverse of every point is a root. */
  lemma LocatorRoot(s: seq<Sym>, ws: seq<Sym>, xs: seq<Sym>, m: nat, z: Sym)
    requires |s| >= 2 && IsPowerSum(s, ws, xs) && Distinct(xs) && 2 * |xs| <= |s|
    requires m < |xs| && ws[m] != Zero && Mul(xs[m], z) == One
    ensures Eval(Locator(s), z) == Zero
  {
    hide Add, Mul, Disc, Eval, PowerSum, Locator, Length, Head;
    var lam, len := Locator(s), Length(s);
    LocatorGenerates(s);
    LengthBound(s, ws, xs);
    PointsAnnihilated(lam, s, ws, xs, len, |s|);
    assert Heads(ws, xs, lam, len)[m] == Zero;
    MulNonZero(ws[m], Head(lam, xs[m], len));
    HeadEval(lam, xs[m], z, len);
    MulZero(Pow(z, len));
    EvalTrim(lam, len + 1, z);
  }
}
