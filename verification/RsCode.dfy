/** The Reed-Solomon code as a set of words: Horner evaluation, syndromes, and the error pattern
    behind the syndromes of a received word. */
module RsCode {
  import opened Gf256
  import opened Pigeonhole
  import opened Poly
  import opened PowerSums
  import opened BerlekampMassey

  /** Symbols per block, 2^8 - 1. */
  const N: nat := 255

  /** The word as a polynomial, first symbol at the highest power, evaluated at x. */
  function Horner(w: seq<Sym>, x: Sym): Sym {
    if w == [] then Zero
    else Add(Mul(x, Horner(w[..|w| - 1], x)), w[|w| - 1])
  }

  lemma HornerSnoc(w: seq<Sym>, c: Sym, x: Sym)
    ensures Horner(w + [c], x) == Add(Mul(x, Horner(w, x)), c)
  {
    assert (w + [c])[..|w|] == w;
  }

  lemma {:induction false} HornerAppend(v: seq<Sym>, w: seq<Sym>, x: Sym)
    ensures Horner(v + w, x) == Add(Mul(Pow(x, |w|), Horner(v, x)), Horner(w, x))
    decreases |w|
  {
    hide Add, Mul;
    if w == [] {
      assert v + w == v;
      MulOne(Horner(v, x));
      AddZero(Horner(v, x));
    } else {
      var n := |w| - 1;
      HornerAppend(v, w[..n], x);
      assert (v + w)[..|v| + n] == v + w[..n];
      var a, y, b := Horner(v, x), Pow(x, n), Horner(w[..n], x);
      Distrib(x, Mul(y, a), b);
      MulAssoc(x, y, a);
      AddAssoc(Mul(Mul(x, y), a), Mul(x, b), w[n]);
    }
  }

  lemma {:induction false} HornerAddScaled(p: seq<Sym>, c: Sym, q: seq<Sym>, x: Sym)
    requires |p| == |q|
    ensures Horner(AddScaled(p, c, q), x) == Add(Horner(p, x), Mul(c, Horner(q, x)))
    decreases |p|
  {
    hide Add, Mul;
    if p == [] {
      MulZero(c);
      AddZero(Zero);
    } else {
      var n := |p| - 1;
      HornerAddScaled(p[..n], c, q[..n], x);
      assert AddScaled(p, c, q)[..n] == AddScaled(p[..n], c, q[..n]);
      var a, b := Horner(p[..n], x), Horner(q[..n], x);
      Distrib(x, a, Mul(c, b));
      MulAssoc(x, c, b);
      MulComm(x, c);
      MulAssoc(c, x, b);
      Distrib(c, Mul(x, b), q[n]);
      AddSwap(Mul(x, a), Mul(c, Mul(x, b)), p[n], Mul(c, q[n]));
    }
  }

  // ----- syndromes -----

  function Syndromes(w: seq<Sym>, nroots: nat): (s: seq<Sym>)
    ensures |s| == nroots && forall k: nat :: k < nroots ==> s[k] == Horner(w, Exp(k))
  {
    seq(nroots, k requires 0 <= k < nroots => Horner(w, Exp(k)))
  }

  ghost predicate IsCodeword(w: seq<Sym>, nroots: nat) {
    |w| == N && forall k: nat :: k < nroots ==> Horner(w, Exp(k)) == Zero
  }

  /** The difference of two words of equal length. */
  function Diff(v: seq<Sym>, w: seq<Sym>): (e: seq<Sym>)
    requires |v| == |w|
    ensures |e| == |v| && forall i :: 0 <= i < |e| ==> e[i] == Add(v[i], w[i])
  {
    seq(|v|, i requires 0 <= i < |v| => Add(v[i], w[i]))
  }

  lemma SyndromesOfDiff(w: seq<Sym>, c: seq<Sym>, nroots: nat, k: nat)
    requires |w| == N && IsCodeword(c, nroots) && k < nroots
    ensures Horner(w, Exp(k)) == Horner(Diff(w, c), Exp(k))
  {
    hide Add, Mul, Horner, Exp;
    HornerAddScaled(w, One, c, Exp(k));
    forall i | 0 <= i < N
      ensures Mul(One, c[i]) == c[i]
    {
      MulOne(c[i]);
    }
    assert AddScaled(w, One, c) == Diff(w, c);
    MulComm(One, Zero);
    MulZero(One);
    AddZero(Horner(w, Exp(k)));
  }

  // ----- the error pattern as weighted points -----

  /** The positions of the nonzero symbols of e, in order. */
  function Support(e: seq<Sym>): (r: seq<nat>)
    ensures forall m :: 0 <= m < |r| ==> r[m] < |e|
  {
    if e == [] then []
    else
      var n := |e| - 1;
      Support(e[..n]) + (if e[n] == Zero then [] else [n])
  }

  lemma {:induction false} SupportSorted(e: seq<Sym>)
    ensures forall m, n :: 0 <= m < n < |Support(e)| ==> Support(e)[m] < Support(e)[n]
  {
    if e != [] {
      SupportSorted(e[..|e| - 1]);
    }
  }

  lemma {:induction false} SupportMember(e: seq<Sym>, i: nat)
    requires i < |e|
    ensures i in Support(e) <==> e[i] != Zero
  {
    var n := |e| - 1;
    if i < n {
      SupportMember(e[..n], i);
      assert e[..n][i] == e[i];
    }
  }

  function Weights(e: seq<Sym>, pos: seq<nat>): (r: seq<Sym>)
    requires forall m :: 0 <= m < |pos| ==> pos[m] < |e|
    ensures |r| == |pos| && forall m :: 0 <= m < |r| ==> r[m] == e[pos[m]]
  {
    seq(|pos|, m requires 0 <= m < |pos| => e[pos[m]])
  }

  /** The locator of position i is the power of x that symbol i multiplies. */
  function Points(pos: seq<nat>): (r: seq<Sym>)
    requires forall m :: 0 <= m < |pos| ==> pos[m] < N
    ensures |r| == |pos| && forall m :: 0 <= m < |r| ==> r[m] == Exp(N - 1 - pos[m])
  {
    seq(|pos|, m requires 0 <= m < |pos| => Exp(N - 1 - pos[m]))
  }

  lemma PointsDistinct(pos: seq<nat>)
    requires forall m :: 0 <= m < |pos| ==> pos[m] < N
    requires forall m, n :: 0 <= m < n < |pos| ==> pos[m] < pos[n]
    ensures Distinct(Points(pos))
  {
    hide Exp;
    forall m, n | 0 <= m < n < |pos|
      ensures Points(pos)[m] != Points(pos)[n]
    {
      ExpInjective(N - 1 - pos[n], N - 1 - pos[m]);
    }
  }

  /** The power sum of the error pattern e. */
  function PatternSum(e: seq<Sym>, k: nat): Sym
    requires |e| <= N
  {
    PowerSum(Weights(e, Support(e)), Points(Support(e)), k)
  }

  lemma PatternSumStep(e: seq<Sym>, k: nat)
    requires 0 < |e| <= N
    ensures var n := |e| - 1;
            PatternSum(e, k) == Add(PatternSum(e[..n], k), Mul(e[n], Pow(Exp(N - 1 - n), k)))
  {
    hide Add, Mul, Pow, Exp;
    var n := |e| - 1;
    var f := e[..n];
    var r, r' := Support(f), Support(e);
    if e[n] == Zero {
      assert r' == r;
      assert Weights(e, r) == Weights(f, r);
      MulZero(Pow(Exp(N - 1 - n), k));
      AddZero(PatternSum(f, k));
    } else {
      assert r' == r + [n];
      assert Weights(e, r')[..|r|] == Weights(f, r);
      assert Points(r')[..|r|] == Points(r);
    }
  }

  /** The value of a prefix, shifted to its place in the block, is a power sum over its support. */
  lemma {:induction false} PrefixPowerSum(e: seq<Sym>, k: nat)
    requires |e| <= N
    ensures Mul(Pow(Exp(k), N - |e|), Horner(e, Exp(k))) == PatternSum(e, k)
    decreases |e|
  {
    hide Add, Mul, Pow, Exp;
    var b := Exp(k);
    if e == [] {
      MulZero(Pow(b, N));
    } else {
      hide PatternSum;
      var n := |e| - 1;
      PrefixPowerSum(e[..n], k);
      PatternSumStep(e, k);
      var y, h := Pow(b, N - 1 - n), Horner(e[..n], b);
      Distrib(y, Mul(b, h), e[n]);
      MulAssoc(y, b, h);
      PowSucc(b, N - 1 - n);
      MulComm(y, e[n]);
      PowExp(k, N - 1 - n);
      PowExp(N - 1 - n, k);
      assert k * (N - 1 - n) == (N - 1 - n) * k;
    }
  }

  /** The syndromes of a received word are the power sums of its error pattern. */
  lemma SyndromesArePowerSums(w: seq<Sym>, c: seq<Sym>, nroots: nat)
    requires |w| == N && IsCodeword(c, nroots)
    ensures IsPowerSum(Syndromes(w, nroots), Weights(Diff(w, c), Support(Diff(w, c))), Points(Support(Diff(w, c))))
  {
    hide Add, Mul, Exp, Horner, PowerSum, Support;
    var e := Diff(w, c);
    forall k: nat | k < nroots
      ensures Horner(w, Exp(k)) == PatternSum(e, k)
    {
      SyndromesOfDiff(w, c, nroots, k);
      PrefixPowerSum(e, k);
      MulOne(Horner(e, Exp(k)));
    }
  }
}
