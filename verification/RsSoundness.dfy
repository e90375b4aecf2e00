/** What a non-negative result of decode_rs means for an arbitrary received block: exactly when the block corrected at
    all found positions, and the block decode_rs leaves behind, are codewords. */
module RsSoundness {
  import opened Gf256
  import opened Pigeonhole
  import opened Poly
  import opened PowerSums
  import opened BerlekampMassey
  import opened Forney
  import opened RsCode
  import opened RsEncoder
  import opened RsDecoder

  // ----- syndromes explained by the found roots -----

  /** The root search found as many roots as the locator's degree. */
  ghost predicate FullyRooted(s: seq<Sym>) {
    |s| >= 2 && |RootList(Locator(s), N)| == Degree(Locator(s))
  }

  ghost function RootPoints(roots: seq<nat>): (r: seq<Sym>)
    requires forall m :: 0 <= m < |roots| ==> roots[m] <= N
    ensures |r| == |roots| && forall m :: 0 <= m < |r| ==> r[m] == Exp(N - roots[m])
  {
    seq(|roots|, m requires 0 <= m < |roots| => Exp(N - roots[m]))
  }

  ghost function Corrections(lam: seq<Sym>, om: seq<Sym>, roots: seq<nat>): (r: seq<Sym>)
    requires forall m :: 0 <= m < |roots| ==> roots[m] <= N
    ensures |r| == |roots| && forall m :: 0 <= m < |r| ==> r[m] == Correction(lam, om, roots[m])
  {
    seq(|roots|, m requires 0 <= m < |roots| => Correction(lam, om, roots[m]))
  }

  lemma RootPointsInverse(p: seq<Sym>)
    ensures InverseRoots(p, RootPoints(RootList(p, N)), RootElements(RootList(p, N)))
  {
    hide Mul, Exp, Eval, RootList;
    RootElementsDistinct(p, N);
    var roots := RootList(p, N);
    forall m | 0 <= m < |roots|
      ensures Mul(Exp(N - roots[m]), Exp(roots[m])) == One
    {
      InverseOfPoint(roots[m] - 1);
    }
  }

  lemma RootPointsDistinct(p: seq<Sym>)
    ensures Distinct(RootPoints(RootList(p, N)))
  {
    hide Exp, RootList;
    var roots := RootList(p, N);
    RootListSorted(p, N);
    forall a, b | 0 <= a < b < |roots|
      ensures Exp(N - roots[a]) != Exp(N - roots[b])
    {
      ExpInjective(N - roots[b], N - roots[a]);
    }
  }

  /** The running quotient at the degree vanishes at the inverse of a root. */
  lemma HeadAtRoot(p: seq<Sym>, x: Sym, z: Sym, deg: nat)
    requires deg < |p| && Mul(x, z) == One && Eval(p, z) == Zero
    requires forall j :: deg < j < |p| ==> p[j] == Zero
    ensures Head(p, x, deg) == Zero
  {
    hide Mul, Eval, Head, Pow;
    HeadEval(p, x, z, deg);
    EvalTrim(p, deg + 1, z);
    MulNonZero(Pow(z, deg), Head(p, x, deg));
    MulZero(x);
    PowNonZero(z, deg);
  }

  /** Power sums over the roots obey the locator's recurrence. */
  lemma PowerSumsRecur(lam: seq<Sym>, s: seq<Sym>, ws: seq<Sym>, xs: seq<Sym>, zs: seq<Sym>, deg: nat, k: nat)
    requires |lam| == |s| && deg <= k < |s| && IsPowerSum(s, ws, xs) && InverseRoots(lam, xs, zs)
    requires forall j :: deg < j < |lam| ==> lam[j] == Zero
    ensures Disc(lam, s, k) == Zero
  {
    hide Mul, Eval, Head, Pow, PowerSum, Disc;
    DiscPowerSum(lam, s, ws, xs, deg, k);
    var hs := Heads(ws, xs, lam, deg);
    forall m | 0 <= m < |hs|
      ensures hs[m] == Zero
    {
      HeadAtRoot(lam, xs[m], zs[m], deg);
      MulZero(ws[m]);
    }
    PowerSumZero(hs, xs, k - deg);
  }

  /** A syndrome vector with the same products with lam is the same vector. */
  lemma {:induction false} ConvDifference(lam: seq<Sym>, s: seq<Sym>, t: seq<Sym>, k: nat, n: nat)
    requires |lam| == |s| == |t| && 1 <= n <= k + 1 <= |s| && lam[0] == One
    requires forall j :: 0 <= j < k ==> s[j] == t[j]
    ensures Add(Conv(lam, s, k, n), Conv(lam, t, k, n)) == Add(s[k], t[k])
  {
    hide Add, Mul;
    if n == 1 {
      assert Conv(lam, s, k, 1) == Add(Conv(lam, s, k, 0), Mul(One, s[k]));
      assert Conv(lam, t, k, 1) == Add(Conv(lam, t, k, 0), Mul(One, t[k]));
      MulOne(s[k]);
      MulOne(t[k]);
      AddZero(s[k]);
      AddZero(t[k]);
    } else {
      ConvDifference(lam, s, t, k, n - 1);
      var u := Mul(lam[n - 1], s[k - (n - 1)]);
      AddSwap(Conv(lam, s, k, n - 1), u, Conv(lam, t, k, n - 1), u);
      AddSelf(u);
      AddZero(Add(s[k], t[k]));
    }
  }

  lemma {:induction false} DiscDetermines(lam: seq<Sym>, s: seq<Sym>, t: seq<Sym>, n: nat)
    requires |lam| == |s| == |t| && n <= |s| && |s| > 0 && lam[0] == One
    requires forall k: nat :: k < |s| ==> Disc(lam, s, k) == Disc(lam, t, k)
    ensures forall j :: 0 <= j < n ==> s[j] == t[j]
  {
    hide Add, Mul, Conv;
    if n > 0 {
      DiscDetermines(lam, s, t, n - 1);
      var k := n - 1;
      assert Disc(lam, s, k) == Disc(lam, t, k);
      ConvDifference(lam, s, t, k, k + 1);
      AddSelf(Disc(lam, s, k));
      AddIsZero(s[k], t[k]);
    }
  }

  function SumsOf(ws: seq<Sym>, xs: seq<Sym>, n: nat): (r: seq<Sym>)
    requires |ws| == |xs|
    ensures |r| == n && IsPowerSum(r, ws, xs)
  {
    seq(n, k requires 0 <= k < n => PowerSum(ws, xs, k))
  }

  /** Undoing Forney's formula: weight times z times derivative is the evaluator's value. */
  lemma CorrectionInverse(lam: seq<Sym>, om: seq<Sym>, i: nat)
    requires 1 <= i <= N && Denominator(lam, i) != Zero
    ensures Mul(Mul(Correction(lam, om, i), Exp(i)), Denominator(lam, i)) == Numerator(om, i)
  {
    hide Mul, Exp, Inv, Denominator, Numerator;
    var a, x, z, d := Numerator(om, i), Exp(N - i), Exp(i), Denominator(lam, i);
    InverseOfPoint(i - 1);
    MulInv(d);
    var v := Inv(d);
    MulAssoc(Mul(Mul(a, x), v), z, d);
    MulSwap(Mul(a, x), v, z, d);
    MulAssoc(a, x, z);
    MulComm(a, One);
    MulOne(a);
    MulComm(v, d);
  }

  /** Two evaluators of degree below the root count that agree at the roots are equal. */
  lemma SameEvaluator(p: seq<Sym>, q: seq<Sym>, zs: seq<Sym>)
    requires |p| == |q| && Distinct(zs)
    requires forall j :: |zs| <= j < |p| ==> p[j] == Zero && q[j] == Zero
    requires forall m :: 0 <= m < |zs| ==> Eval(p, zs[m]) == Eval(q, zs[m])
    ensures p == q
  {
    hide Add, Mul, Eval;
    var d := AddScaled(p, One, q);
    forall m | 0 <= m < |zs|
      ensures Eval(d, zs[m]) == Zero
    {
      EvalAddScaled(p, One, q, zs[m]);
      MulOne(Eval(q, zs[m]));
      AddSelf(Eval(p, zs[m]));
    }
    forall j | |zs| <= j < |d|
      ensures d[j] == Zero
    {
      MulZero(One);
      AddZero(Zero);
    }
    RootBoundDegree(d, zs);
    forall j | 0 <= j < |p|
      ensures p[j] == q[j]
    {
      assert d[j] == Zero;
      MulOne(q[j]);
      AddIsZero(p[j], q[j]);
    }
  }

  lemma EvaluatorsAgree(s: seq<Sym>, t: seq<Sym>, ws: seq<Sym>, xs: seq<Sym>, m: nat)
    requires FullyRooted(s) && |t| == |s| && IsPowerSum(t, ws, xs)
    requires m < |RootList(Locator(s), N)| && xs == RootPoints(RootList(Locator(s), N))
    requires ws == Corrections(Locator(s), Evaluator(Locator(s), s), RootList(Locator(s), N))
    ensures Eval(Evaluator(Locator(s), t), Exp(RootList(Locator(s), N)[m])) ==
            Eval(Evaluator(Locator(s), s), Exp(RootList(Locator(s), N)[m]))
  {
    hide Mul, Exp, Eval, RootList, Locator, Deriv, Disc, Correction, PowerSum, Evaluator;
    var lam, roots := Locator(s), RootList(Locator(s), N);
    LocatorStart(s);
    DegreeIsHighest(lam);
    RootElementsDistinct(lam, N);
    RootPointsInverse(lam);
    DegreeBelow(s);
    PowerSumsRecur(lam, t, ws, xs, RootElements(roots), |roots|, |s| - 1);
    EvaluatorAtRoot(lam, t, ws, xs, RootElements(roots), m);
    DenominatorNonZero(s, m);
    CorrectionInverse(lam, Evaluator(lam, s), roots[m]);
  }

  lemma DegreeBelow(s: seq<Sym>)
    requires |s| >= 2
    ensures Degree(Locator(s)) <= Length(s) && Degree(Locator(s)) < |s|
  {
    hide Locator, Length, Disc;
    LocatorGenerates(s);
    DegreeIsHighest(Locator(s));
  }

  /** If the register is as long as the degree, the corrections at the roots explain the syndromes. */
  lemma RootsExplain(s: seq<Sym>)
    requires FullyRooted(s) && Length(s) == Degree(Locator(s))
    ensures var lam := Locator(s);
            var roots := RootList(lam, N);
            IsPowerSum(s, Corrections(lam, Evaluator(lam, s), roots), RootPoints(roots))
  {
    hide Mul, Exp, Eval, RootList, Locator, Length, Disc, Correction, PowerSum, Generates;
    var lam := Locator(s);
    var roots, om := RootList(lam, N), Evaluator(lam, s);
    var ws, xs, zs := Corrections(lam, om, roots), RootPoints(roots), RootElements(roots);
    var t := SumsOf(ws, xs, |s|);
    var om' := Evaluator(lam, t);
    LocatorZeroTail(s);
    RootElementsDistinct(lam, N);
    RootPointsInverse(lam);
    forall j | |zs| <= j < |s|
      ensures om[j] == Zero && om'[j] == Zero
    {
      PowerSumsRecur(lam, t, ws, xs, zs, |roots|, j);
    }
    forall m | 0 <= m < |zs|
      ensures Eval(om, zs[m]) == Eval(om', zs[m])
    {
      EvaluatorsAgree(s, t, ws, xs, m);
    }
    SameEvaluator(om, om', zs);
    forall k: nat | k < |s|
      ensures Disc(lam, s, k) == Disc(lam, t, k)
    {
      assert om[k] == om'[k];
    }
    DiscDetermines(lam, s, t, |s|);
    assert s == t;
  }

  lemma LocatorZeroTail(s: seq<Sym>)
    requires |s| >= 2 && Length(s) == Degree(Locator(s))
    ensures Locator(s)[0] == One
    ensures forall j :: Degree(Locator(s)) < j < |s| ==> Locator(s)[j] == Zero
    ensures forall k: nat :: Degree(Locator(s)) <= k < |s| ==> Disc(Locator(s), s, k) == Zero
  {
    hide Locator, Length, Disc;
    LocatorGenerates(s);
  }

  // ----- the corrected block -----

  /** The block with the first n corrections applied, parity positions included. */
  ghost function Fixed(w: seq<Sym>, ws: seq<Sym>, roots: seq<nat>, n: nat): (r: seq<Sym>)
    requires |w| == N && |ws| == |roots| && n <= |roots|
    requires forall m :: 0 <= m < |roots| ==> 1 <= roots[m] <= N
    ensures |r| == N
  {
    if n == 0 then w
    else
      var c := Fixed(w, ws, roots, n - 1);
      var p := roots[n - 1] - 1;
      c[p := Add(c[p], ws[n - 1])]
  }

  lemma {:induction false} HornerUpdate(w: seq<Sym>, p: nat, v: Sym, x: Sym)
    requires p < |w|
    ensures Horner(w[p := Add(w[p], v)], x) == Add(Horner(w, x), Mul(v, Pow(x, |w| - 1 - p)))
    decreases |w|
  {
    hide Add, Mul, Pow;
    var n := |w| - 1;
    var w' := w[p := Add(w[p], v)];
    if p == n {
      assert w'[..n] == w[..n];
      PowZero(x);
      MulComm(v, One);
      MulOne(v);
      AddAssoc(Mul(x, Horner(w[..n], x)), w[n], v);
    } else {
      HornerUpdate(w[..n], p, v, x);
      assert w'[..n] == w[..n][p := Add(w[p], v)];
      var h, y := Horner(w[..n], x), Pow(x, n - 1 - p);
      Distrib(x, h, Mul(v, y));
      MulLeftSwap(x, v, y);
      PowSucc(x, n - 1 - p);
      var u := Mul(v, Pow(x, n - p));
      AddAssoc(Mul(x, h), u, w[n]);
      AddComm(u, w[n]);
      AddAssoc(Mul(x, h), w[n], u);
    }
  }

  lemma PowZero(x: Sym)
    ensures Pow(x, 0) == One
  {
  }

  /** Each correction adds its power to every syndrome. */
  lemma {:induction false} FixedSyndrome(w: seq<Sym>, ws: seq<Sym>, roots: seq<nat>, n: nat, k: nat)
    requires |w| == N && |ws| == |roots| && n <= |roots|
    requires forall m :: 0 <= m < |roots| ==> 1 <= roots[m] <= N
    ensures Horner(Fixed(w, ws, roots, n), Exp(k)) ==
            Add(Horner(w, Exp(k)), PowerSum(ws[..n], RootPoints(roots)[..n], k))
  {
    hide Add, Mul, Pow, Exp, Horner;
    var xs := RootPoints(roots);
    if n == 0 {
      AddZero(Horner(w, Exp(k)));
    } else {
      FixedSyndrome(w, ws, roots, n - 1, k);
      var c, p := Fixed(w, ws, roots, n - 1), roots[n - 1] - 1;
      HornerUpdate(c, p, ws[n - 1], Exp(k));
      PowExp(k, N - 1 - p);
      PowExp(N - 1 - p, k);
      assert k * (N - 1 - p) == (N - 1 - p) * k;
      assert ws[..n][..n - 1] == ws[..n - 1] && xs[..n][..n - 1] == xs[..n - 1];
      AddAssoc(Horner(w, Exp(k)), PowerSum(ws[..n - 1], xs[..n - 1], k), Mul(ws[n - 1], Pow(xs[n - 1], k)));
    }
  }

  /** The block with the first n corrections applied is a codeword if and only if they explain the syndromes. */
  lemma FixedIsCodeword(w: seq<Sym>, nroots: nat, ws: seq<Sym>, roots: seq<nat>, n: nat)
    requires |w| == N && |ws| == |roots| && n <= |roots|
    requires forall m :: 0 <= m < |roots| ==> 1 <= roots[m] <= N
    ensures IsCodeword(Fixed(w, ws, roots, n), nroots) <==>
            IsPowerSum(Syndromes(w, nroots), ws[..n], RootPoints(roots)[..n])
  {
    hide Add, Exp, Horner, PowerSum, Fixed;
    var c, xs := Fixed(w, ws, roots, n), RootPoints(roots);
    forall k: nat | k < nroots
      ensures Horner(c, Exp(k)) == Zero <==> Horner(w, Exp(k)) == PowerSum(ws[..n], xs[..n], k)
    {
      FixedSyndrome(w, ws, roots, n, k);
      AddIsZero(Horner(w, Exp(k)), PowerSum(ws[..n], xs[..n], k));
    }
    assert forall k: nat :: k < nroots ==> Syndromes(w, nroots)[k] == Horner(w, Exp(k));
  }

  lemma {:induction false} FixedAt(w: seq<Sym>, ws: seq<Sym>, roots: seq<nat>, n: nat, p: nat)
    requires |w| == N && |ws| == |roots| && n <= |roots| && p < N
    requires forall m :: 0 <= m < |roots| ==> 1 <= roots[m] <= N
    requires forall a, b :: 0 <= a < b < |roots| ==> roots[a] < roots[b]
    ensures forall m :: 0 <= m < n && roots[m] == p + 1 ==> Fixed(w, ws, roots, n)[p] == Add(w[p], ws[m])
    ensures p + 1 !in roots[..n] ==> Fixed(w, ws, roots, n)[p] == w[p]
  {
    hide Add;
    if n > 0 {
      FixedAt(w, ws, roots, n - 1, p);
      assert roots[..n] == roots[..n - 1] + [roots[n - 1]];
      assert roots[n - 1] !in roots[..n - 1];
    }
  }

  /** The same for the in-place loop, for data positions. */
  lemma {:induction false} ProcessAt(w: seq<Sym>, s: seq<Sym>, nroots: nat, roots: seq<nat>, om: seq<Sym>, j: nat, p: nat)
    requires |w| == N && nroots <= N && j <= |roots| && forall m :: 0 <= m < |roots| ==> 1 <= roots[m] <= N
    requires p < N - nroots && FullyRooted(s) && roots == RootList(Locator(s), N)
    ensures var r := Process(w, Locator(s), om, roots, nroots, j);
            && !r.failed
            && (forall m :: j <= m < |roots| && roots[m] == p + 1 ==>
                  r.word[p] == Add(w[p], Correction(Locator(s), om, roots[m])))
            && (p + 1 !in roots[j..] ==> r.word[p] == w[p])
    decreases |roots| - j
  {
    hide *;
    FullyRootedIs(s);
    ProcessStart(w, Locator(s), om, roots, nroots);
    if j < |roots| {
      ProcessAt(w, s, nroots, roots, om, j + 1, p);
      RootListSorted(Locator(s), N);
      RootsApart(roots, j);
      ProcessStepAt(w, s, nroots, roots, om, j, p);
      var lam := Locator(s);
      var r, r' := Process(w, lam, om, roots, nroots, j + 1), Process(w, lam, om, roots, nroots, j);
      SymbolAt(roots, j, p, Corrections(lam, om, roots), w[p], r.word[p], r'.word[p]);
    }
  }

  /** One more root, seen from one symbol. */
  lemma SymbolAt(roots: seq<nat>, j: nat, p: nat, cs: seq<Sym>, x: Sym, v: Sym, v': Sym)
    requires j < |roots| == |cs| && roots[j..] == [roots[j]] + roots[j + 1..] && roots[j] !in roots[j + 1..]
    requires forall m :: j < m < |roots| ==> roots[m] in roots[j + 1..]
    requires v' == if roots[j] == p + 1 then Add(v, cs[j]) else v
    requires forall m :: j < m < |roots| && roots[m] == p + 1 ==> v == Add(x, cs[m])
    requires p + 1 !in roots[j + 1..] ==> v == x
    ensures forall m :: j <= m < |roots| && roots[m] == p + 1 ==> v' == Add(x, cs[m])
    ensures p + 1 !in roots[j..] ==> v' == x
  {
    hide *;
  }

  lemma RootsApart(roots: seq<nat>, j: nat)
    requires j < |roots| && forall a, b :: 0 <= a < b < |roots| ==> roots[a] < roots[b]
    ensures roots[j..] == [roots[j]] + roots[j + 1..] && roots[j] !in roots[j + 1..]
    ensures forall m :: j < m < |roots| ==> roots[m] in roots[j + 1..] && roots[m] != roots[j]
  {
    forall m | j < m < |roots|
      ensures roots[m] in roots[j + 1..]
    {
      assert roots[j + 1..][m - j - 1] == roots[m];
    }
  }

  /** One root: the symbol at its position gets its correction, every other data symbol stays. */
  lemma OutcomeAt(r: Outcome, r': Outcome, lam: seq<Sym>, om: seq<Sym>, i: nat, nroots: nat, p: nat)
    requires |r.word| == N && nroots <= N && 1 <= i <= N && p < N - nroots && !r.failed
    requires r' == if Numerator(om, i) == Zero then r
                   else if i - 1 >= N - nroots then r.(count := r.count - 1)
                   else r.(word := r.word[i - 1 := Add(r.word[i - 1], Correction(lam, om, i))])
    ensures |r'.word| == N && !r'.failed
    ensures r'.word[p] == if i == p + 1 then Add(r.word[p], Correction(lam, om, i)) else r.word[p]
  {
    hide *;
    if Numerator(om, i) == Zero {
      CorrectionZero(lam, om, i);
      AddZero(r.word[p]);
    }
  }

  lemma ProcessStepAt(w: seq<Sym>, s: seq<Sym>, nroots: nat, roots: seq<nat>, om: seq<Sym>, j: nat, p: nat)
    requires |w| == N && nroots <= N && j < |roots| && forall m :: 0 <= m < |roots| ==> 1 <= roots[m] <= N
    requires p < N - nroots && FullyRooted(s) && roots == RootList(Locator(s), N)
    requires !Process(w, Locator(s), om, roots, nroots, j + 1).failed
    ensures var r, r' := Process(w, Locator(s), om, roots, nroots, j + 1), Process(w, Locator(s), om, roots, nroots, j);
            && !r'.failed
            && r'.word[p] == if roots[j] == p + 1 then Add(r.word[p], Correction(Locator(s), om, roots[j])) else r.word[p]
  {
    hide *;
    FullyRootedIs(s);
    DenominatorNonZero(s, j);
    var lam := Locator(s);
    ProcessStep(w, lam, om, roots, nroots, j);
    OutcomeAt(Process(w, lam, om, roots, nroots, j + 1), Process(w, lam, om, roots, nroots, j), lam, om, roots[j], nroots, p);
  }

  lemma CorrectionZero(lam: seq<Sym>, om: seq<Sym>, i: nat)
    requires i <= N && Numerator(om, i) == Zero
    ensures Correction(lam, om, i) == Zero
  {
    hide Mul, Exp, Inv, Denominator, Numerator;
    MulZero(Exp(N - i));
    if Denominator(lam, i) != Zero {
      MulZero(Inv(Denominator(lam, i)));
    }
  }

  /** For any block on which decode_rs reports success after a search, its data part is the data part
      of the fully corrected block, and that block is a codeword if and only if the register length
      equals the degree of the locator. (Odd nroots: the entry of Lambda that is never set counts as zero.) */
  lemma DecodeSound(w: seq<Sym>, nroots: nat, s: seq<Sym>, lam: seq<Sym>, roots: seq<nat>, c: seq<Sym>)
    requires |w| == N && 2 <= nroots <= N && s == Syndromes(w, nroots) && !AllZero(s)
    requires forall m :: 0 <= m < |roots| ==> 1 <= roots[m] <= N
    requires |lam| == |s| && lam == Locator(s) && roots == RootList(lam, N) && |roots| == Degree(lam)
    requires c == Fixed(w, Corrections(lam, Evaluator(lam, s), roots), roots, |roots|)
    ensures Decode(w, nroots).1 >= 0
    ensures Decode(w, nroots).0[..N - nroots] == c[..N - nroots]
    ensures IsCodeword(c, nroots) <==> Length(s) == Degree(lam)
  {
    hide *;
    assert FullyRooted(s) by { FullyRootedIs(s); }
    SearchSucceeded(w, nroots, s);
    var om := Evaluator(lam, s);
    var ws := Corrections(lam, om, roots);
    RootListSorted(lam, N);
    forall p | 0 <= p < N - nroots
      ensures Decode(w, nroots).0[p] == c[p]
    {
      ProcessAt(w, s, nroots, roots, om, 0, p);
      FixedAt(w, ws, roots, |roots|, p);
      assert roots[..|roots|] == roots && roots[0..] == roots;
    }
    FixedIsCodeword(w, nroots, ws, roots, |roots|);
    assert ws[..|roots|] == ws && RootPoints(roots)[..|roots|] == RootPoints(roots);
    if Length(s) == Degree(lam) {
      RootsExplain(s);
    }
    if IsPowerSum(s, ws, RootPoints(roots)) {
      RootPointsDistinct(lam);
      LengthBound(s, ws, RootPoints(roots));
      DegreeBelow(s);
    }
  }

  lemma FullyRootedIs(s: seq<Sym>)
    ensures FullyRooted(s) <==> |s| >= 2 && |RootList(Locator(s), N)| == Degree(Locator(s))
  {
    hide RootList, Locator, Degree;
  }

  lemma {:induction false} ProcessCount(w: seq<Sym>, lam: seq<Sym>, om: seq<Sym>, roots: seq<nat>, nroots: nat, j: nat)
    requires |w| == N && nroots <= N && j <= |roots|
    requires forall m :: 0 <= m < |roots| ==> 1 <= roots[m] <= N
    ensures Process(w, lam, om, roots, nroots, j).count >= j
    decreases |roots| - j
  {
    hide Add, Correction, Numerator, Denominator;
    if j < |roots| {
      ProcessCount(w, lam, om, roots, nroots, j + 1);
    }
  }

  lemma SearchSucceeded(w: seq<Sym>, nroots: nat, s: seq<Sym>)
    requires |w| == N && 2 <= nroots <= N && s == Syndromes(w, nroots) && !AllZero(s) && FullyRooted(s)
    ensures var lam := Locator(s);
            var r := Process(w, lam, Evaluator(lam, s), RootList(lam, N), nroots, 0);
            Decode(w, nroots) == (r.word, r.count) && r.count >= 0
  {
    hide RootList, Locator, Process, Evaluator, Syndromes, AllZero, Degree;
    var lam := Locator(s);
    ProcessSucceeds(w, s, Evaluator(lam, s), nroots, 0);
    ProcessCount(w, lam, Evaluator(lam, s), RootList(lam, N), nroots, 0);
  }

  // ----- the block decode_rs leaves behind -----

  /** decode_rs never writes a parity symbol. */
  lemma {:induction false} ProcessParity(w: seq<Sym>, lam: seq<Sym>, om: seq<Sym>, roots: seq<nat>, nroots: nat, j: nat, p: nat)
    requires |w| == N && nroots <= N && j <= |roots| && N - nroots <= p < N
    requires forall m :: 0 <= m < |roots| ==> 1 <= roots[m] <= N
    ensures Process(w, lam, om, roots, nroots, j).word[p] == w[p]
    decreases |roots| - j
  {
    hide Add, Correction, Numerator, Denominator;
    if j < |roots| {
      ProcessParity(w, lam, om, roots, nroots, j + 1, p);
    }
  }

  lemma ParityKept(w: seq<Sym>, nroots: nat, p: nat)
    requires |w| == N && 2 <= nroots <= N && N - nroots <= p < N
    ensures Decode(w, nroots).0[p] == w[p]
  {
    hide RootList, Locator, Process, Evaluator, Syndromes, AllZero, Degree;
    var s := Syndromes(w, nroots);
    var lam := Locator(s);
    ProcessParity(w, lam, Evaluator(lam, s), RootList(lam, N), nroots, 0, p);
  }

  /** How many of the sorted roots lie in the data part. */
  lemma {:induction false} DataRoots(roots: seq<nat>, lim: nat) returns (k: nat)
    requires forall a, b :: 0 <= a < b < |roots| ==> roots[a] < roots[b]
    ensures k <= |roots| && forall m :: 0 <= m < |roots| ==> (roots[m] <= lim <==> m < k)
  {
    k := 0;
    while k < |roots| && roots[k] <= lim
      invariant k <= |roots| && forall m :: 0 <= m < k ==> roots[m] <= lim
    {
      k := k + 1;
    }
  }

  /** After a successful search the block holds the corrections of the data roots and no others. */
  lemma ReturnedIsFixed(w: seq<Sym>, nroots: nat, s: seq<Sym>, roots: seq<nat>, ws: seq<Sym>, k: nat)
    requires |w| == N && 2 <= nroots <= N && s == Syndromes(w, nroots) && !AllZero(s) && FullyRooted(s)
    requires forall m :: 0 <= m < |roots| ==> 1 <= roots[m] <= N
    requires roots == RootList(Locator(s), N) && ws == Corrections(Locator(s), Evaluator(Locator(s), s), roots)
    requires k <= |roots| && forall m :: 0 <= m < |roots| ==> (roots[m] <= N - nroots <==> m < k)
    ensures Decode(w, nroots).0 == Fixed(w, ws, roots, k)
  {
    hide *;
    SearchSucceeded(w, nroots, s);
    RootListSorted(Locator(s), N);
    var d, f := Decode(w, nroots).0, Fixed(w, ws, roots, k);
    forall p | 0 <= p < N
      ensures d[p] == f[p]
    {
      FixedAt(w, ws, roots, k, p);
      if p >= N - nroots {
        ParityKept(w, nroots, p);
      } else {
        ProcessAt(w, s, nroots, roots, Evaluator(Locator(s), s), 0, p);
        DataRootAt(roots, k, p + 1);
      }
    }
  }

  lemma DataRootAt(roots: seq<nat>, k: nat, i: nat)
    requires k <= |roots| && forall m :: k <= m < |roots| ==> roots[m] != i
    ensures roots[0..] == roots && (i in roots ==> exists m :: 0 <= m < k && roots[m] == i)
    ensures i in roots[..k] ==> i in roots
  {
  }

  /** The exact condition under which a block that was searched successfully is left a codeword: the register is as long
      as the degree, and every root lies in the data part. */
  lemma SearchedIsCodeword(w: seq<Sym>, nroots: nat, s: seq<Sym>, lam: seq<Sym>, roots: seq<nat>)
    requires |w| == N && 2 <= nroots <= N && s == Syndromes(w, nroots) && !AllZero(s) && FullyRooted(s)
    requires lam == Locator(s) && roots == RootList(lam, N)
    ensures Decode(w, nroots).1 >= 0
    ensures IsCodeword(Decode(w, nroots).0, nroots) <==>
            Length(s) == Degree(lam) && forall m :: 0 <= m < |roots| ==> roots[m] <= N - nroots
  {
    hide *;
    FullyRootedIs(s);
    SearchSucceeded(w, nroots, s);
    RootListSorted(lam, N);
    var ws, xs := Corrections(lam, Evaluator(lam, s), roots), RootPoints(roots);
    var k := DataRoots(roots, N - nroots);
    ReturnedIsFixed(w, nroots, s, roots, ws, k);
    FixedIsCodeword(w, nroots, ws, roots, k);
    DegreeBelow(s);
    if IsPowerSum(s, ws[..k], xs[..k]) {
      RootPointsDistinct(lam);
      PrefixDistinct(xs, k);
      LengthBound(s, ws[..k], xs[..k]);
    }
    if k < |roots| {
      assert roots[k] > N - nroots;
    } else if Length(s) == Degree(lam) {
      RootsExplain(s);
      assert ws[..k] == ws && xs[..k] == xs;
    }
  }

  lemma PrefixDistinct<T>(s: seq<T>, k: nat)
    requires Distinct(s) && k <= |s|
    ensures Distinct(s[..k])
  {
  }

  lemma CodewordIs(w: seq<Sym>, nroots: nat)
    requires |w| == N
    ensures IsCodeword(w, nroots) <==> AllZero(Syndromes(w, nroots))
  {
    hide Horner, Exp;
  }

  /** For every block whatever: decode_rs leaves a codeword if and only if it was given one, or its search succeeded with
      a register as long as the degree and all roots in the data part. */
  lemma LeavesCodeword(w: seq<Sym>, nroots: nat, s: seq<Sym>, lam: seq<Sym>, roots: seq<nat>)
    requires |w| == N && 2 <= nroots <= N && s == Syndromes(w, nroots) && lam == Locator(s) && roots == RootList(lam, N)
    ensures IsCodeword(Decode(w, nroots).0, nroots) <==>
            || AllZero(s)
            || (|roots| == Degree(lam) == Length(s) && forall m :: 0 <= m < |roots| ==> roots[m] <= N - nroots)
  {
    hide *;
    CodewordIs(w, nroots);
    FullyRootedIs(s);
    if AllZero(s) || !FullyRooted(s) {
      Untouched(w, nroots, s);
    } else {
      SearchedIsCodeword(w, nroots, s, lam, roots);
    }
  }

  lemma Untouched(w: seq<Sym>, nroots: nat, s: seq<Sym>)
    requires |w| == N && 2 <= nroots <= N && s == Syndromes(w, nroots) && (AllZero(s) || !FullyRooted(s))
    ensures Decode(w, nroots).0 == w && Decode(w, nroots).1 == if AllZero(s) then 0 else -1
  {
    hide RootList, Locator, Process, Evaluator, Syndromes, AllZero, Degree;
  }

  /** For every block whatever: decode_rs reports failure if and only if the syndromes do not vanish and the search finds
      another number of roots than the degree of Lambda; the block is then left as it was. */
  lemma FailsExactly(w: seq<Sym>, nroots: nat, s: seq<Sym>, lam: seq<Sym>, roots: seq<nat>)
    requires |w| == N && 2 <= nroots <= N && s == Syndromes(w, nroots) && lam == Locator(s) && roots == RootList(lam, N)
    ensures Decode(w, nroots).1 < 0 <==> !AllZero(s) && |roots| != Degree(lam)
    ensures Decode(w, nroots).1 < 0 ==> Decode(w, nroots) == (w, -1)
  {
    hide *;
    FullyRootedIs(s);
    if AllZero(s) || !FullyRooted(s) {
      Untouched(w, nroots, s);
    } else {
      SearchedIsCodeword(w, nroots, s, lam, roots);
    }
  }

  /** Errors in the parity part only: success is reported and the block is returned as it came, no codeword. */
  lemma ParityErrors(w: seq<Sym>, c: seq<Sym>, nroots: nat)
    requires FewErrors(w, c, nroots) && w != c && w[..N - nroots] == c[..N - nroots]
    ensures Decode(w, nroots) == (w, 0) && !IsCodeword(w, nroots)
  {
    hide *;
    FewErrorsIs(w, c, nroots);
    var d, lim := Decode(w, nroots).0, N - nroots;
    DecodeCorrects(w, c, nroots);
    forall p | 0 <= p < N
      ensures d[p] == w[p]
    {
      if p < lim {
        assert d[p] == d[..lim][p] && w[p] == w[..lim][p];
      } else {
        ParityKept(w, nroots, p);
      }
    }
    assert d == w;
    NoDifference(w[..lim], c[..lim]);
    DiffPrefix(w, c, lim);
    CodewordIs(w, nroots);
    if IsCodeword(w, nroots) {
      ZeroSyndromes(w, c, nroots);
      forall p | 0 <= p < N
        ensures w[p] == c[p]
      {
        NoErrors(w, c, p);
      }
    }
  }

  lemma FewErrorsIs(w: seq<Sym>, c: seq<Sym>, nroots: nat)
    ensures FewErrors(w, c, nroots) <==>
            |w| == |c| == N && IsCodeword(c, nroots) && 2 <= nroots <= N && 2 * |Support(Diff(w, c))| <= nroots
  {
    hide IsCodeword, Support;
  }

  lemma {:induction false} NoDifference(v: seq<Sym>, w: seq<Sym>)
    requires v == w
    ensures Support(Diff(v, w)) == []
  {
    hide Add;
    var n := |v| - 1;
    if v != [] {
      NoDifference(v[..n], w[..n]);
      DiffPrefix(v, w, n);
      AddSelf(v[n]);
    }
  }

  lemma DiffPrefix(v: seq<Sym>, w: seq<Sym>, n: nat)
    requires |v| == |w| && n <= |v|
    ensures Diff(v, w)[..n] == Diff(v[..n], w[..n])
  {
    hide Add;
  }

  // ----- a block that is no codeword and yet passes -----

  /** The word of the degree nroots-1 divisor of the generator: its only nonzero syndrome is the last. */
  function Masquerade(nroots: nat): (w: seq<Sym>)
    requires 2 <= nroots <= N
    ensures |w| == N
  {
    Zeros(N - nroots) + Reverse(Generator(nroots - 1))
  }

  lemma MasqueradeSyndrome(nroots: nat, k: nat)
    requires 2 <= nroots < N && k < nroots
    ensures Horner(Masquerade(nroots), Exp(k)) == Zero <==> k < nroots - 1
  {
    hide Add, Mul, Exp, Horner, Eval, Generator, Pow;
    var g, x := Generator(nroots - 1), Exp(k);
    HornerAppend(Zeros(N - nroots), Reverse(g), x);
    HornerZeros(N - nroots, x);
    MulZero(Pow(x, nroots));
    HornerReverse(g, x);
    AddZero(Eval(g, x));
    if k < nroots - 1 {
      GeneratorRoot(nroots - 1, k);
    } else {
      GeneratorNextNonZero(nroots - 1);
    }
  }

  lemma GeneratorNextNonZero(n: nat)
    requires n < N - 1
    ensures Eval(Generator(n), Exp(n)) != Zero
  {
    hide Exp, Eval, Generator;
    GeneratorMonic(n);
    if Eval(Generator(n), Exp(n)) == Zero {
      forall i | 0 <= i < n
        ensures Eval(Generator(n), Exp(i)) == Zero
      {
        GeneratorRoot(n, i);
      }
      var xs := Powers(n + 1);
      forall i, j | 0 <= i < j < |xs|
        ensures xs[i] != xs[j]
      {
        ExpInjective(i, j);
      }
      RootBound(Generator(n), xs);
    }
  }

  /** The register while only zero syndromes have been seen. */
  ghost predicate Idle(st: State, s: seq<Sym>, k: nat) {
    && |st.lam| == |st.cor| == |s| && 1 <= k <= |s| && st.len == 0 && st.err == s[k - 1]
    && (forall i :: 0 <= i < |s| ==> st.lam[i] == if i == 0 then One else Zero)
    && (forall i :: 0 <= i < |s| ==> st.cor[i] == if i == k then One else Zero)
  }

  lemma {:induction false} IdleRun(s: seq<Sym>, k: nat)
    requires |s| >= 2 && 1 <= k <= |s| && forall i :: 0 <= i < |s| - 1 ==> s[i] == Zero
    ensures Idle(Run(s, k), s, k)
  {
    hide Idle, Step, Init;
    if k > 1 {
      IdleRun(s, k - 1);
      IdleStep(Run(s, k - 1), s, k - 1);
    } else {
      IdleInit(s);
    }
  }

  lemma IdleInit(s: seq<Sym>)
    requires |s| >= 2
    ensures Idle(Init(s), s, 1)
  {
  }

  lemma IdleStep(st: State, s: seq<Sym>, k: nat)
    requires k < |s| && Idle(st, s, k) && forall i :: 0 <= i < |s| - 1 ==> s[i] == Zero
    ensures Idle(Step(st, s, k), s, k + 1)
  {
    hide Add, Mul, Conv;
    var lam := NextLam(st);
    IdleLam(st, s, k);
    ConvTail(lam, s, k, 1, k + 1);
    ConvFirst(lam, s, k);
  }

  lemma IdleLam(st: State, s: seq<Sym>, k: nat)
    requires k < |s| && Idle(st, s, k) && s[k - 1] == Zero
    ensures NextLam(st) == st.lam
  {
    hide Add, Mul;
    forall i | 0 <= i < |s|
      ensures NextLam(st)[i] == st.lam[i]
    {
      MulZero(st.cor[i]);
      AddZero(st.lam[i]);
    }
  }

  lemma ConvFirst(lam: seq<Sym>, s: seq<Sym>, k: nat)
    requires |lam| > 0 && lam[0] == One && k < |s|
    ensures Conv(lam, s, k, 1) == s[k]
  {
    hide Add, Mul;
    assert Conv(lam, s, k, 1) == Add(Conv(lam, s, k, 0), Mul(One, s[k]));
    MulOne(s[k]);
    AddZero(s[k]);
  }

  /** A lone nonzero last syndrome: the corrector has left the array and the locator stays 1. */
  lemma LoneLastSyndrome(s: seq<Sym>)
    requires |s| >= 2 && forall i :: 0 <= i < |s| - 1 ==> s[i] == Zero
    ensures forall i :: 0 <= i < |s| ==> Locator(s)[i] == if i == 0 then One else Zero
  {
    hide Add, Mul, Run;
    IdleRun(s, |s|);
    var st := Run(s, |s|);
    forall i | 0 <= i < |s|
      ensures Locator(s)[i] == st.lam[i]
    {
      MulZero(st.err);
      AddZero(st.lam[i]);
    }
  }

  lemma {:induction false} NoRoots(p: seq<Sym>, n: nat)
    requires |p| > 0 && forall i :: 0 <= i < |p| ==> p[i] == if i == 0 then One else Zero
    ensures RootList(p, n) == []
  {
    hide Eval, Exp;
    if n > 0 {
      NoRoots(p, n - 1);
      EvalTrim(p, 1, Exp(n));
      assert p[..1] == [One];
      EvalOne(Exp(n));
    }
  }

  lemma OneNotZero()
    ensures One != Zero
  {
  }

  lemma EvalOne(x: Sym)
    ensures Eval([One], x) != Zero
  {
    hide Add, Mul;
    assert [One][1..] == [];
    MulZero(x);
    AddZero(One);
  }

  /** decode_rs returns 0 and changes nothing on a block that is not a codeword. */
  lemma UndetectedBlock(nroots: nat)
    requires 2 <= nroots < N
    ensures var w := Masquerade(nroots);
            !IsCodeword(w, nroots) && Decode(w, nroots) == (w, 0)
  {
    hide *;
    var w := Masquerade(nroots);
    var s := Syndromes(w, nroots);
    forall k: nat | k < nroots
      ensures s[k] == Zero <==> k < nroots - 1
    {
      MasqueradeSyndrome(nroots, k);
    }
    LoneLastSyndrome(s);
    var lam := Locator(s);
    OneNotZero();
    NoRoots(lam, N);
    DegreeIsHighest(lam);
    DecodeWithoutRoots(w, nroots, s);
  }

  lemma DecodeWithoutRoots(w: seq<Sym>, nroots: nat, s: seq<Sym>)
    requires |w| == N && 2 <= nroots <= N && s == Syndromes(w, nroots) && s[nroots - 1] != Zero
    requires RootList(Locator(s), N) == [] && Degree(Locator(s)) == 0
    ensures !IsCodeword(w, nroots) && Decode(w, nroots) == (w, 0)
  {
    hide Syndromes, Locator, RootList, Degree, Horner, Exp, Evaluator;
    assert !AllZero(s);
  }
}
