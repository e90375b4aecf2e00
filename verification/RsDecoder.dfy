/** What ReedSolomon::decode_rs computes, as functions on values, and the correction theorem. */
module RsDecoder {
  import opened Gf256
  import opened Pigeonhole
  import opened Poly
  import opened PowerSums
  import opened BerlekampMassey
  import opened Forney
  import opened RsCode

  /** The highest index with a nonzero coefficient, 0 if there is none. */
  function Degree(p: seq<Sym>): (d: nat)
    ensures d == 0 || d < |p|
  {
    if p == [] then 0
    else if p[|p| - 1] != Zero then |p| - 1
    else Degree(p[..|p| - 1])
  }

  lemma {:induction false} DegreeIsHighest(p: seq<Sym>)
    requires p != [] && p[0] != Zero
    ensures p[Degree(p)] != Zero
    ensures forall j :: Degree(p) < j < |p| ==> p[j] == Zero
  {
    var n := |p| - 1;
    if p[n] == Zero {
      DegreeIsHighest(p[..n]);
    }
  }

  // ----- root search -----

  /** The exponents i in 1..n with p(a^i) == 0, in order. */
  function RootList(p: seq<Sym>, n: nat): (r: seq<nat>)
    ensures forall m :: 0 <= m < |r| ==> 1 <= r[m] <= n
  {
    if n == 0 then []
    else RootList(p, n - 1) + (if Eval(p, Exp(n)) == Zero then [n] else [])
  }

  lemma {:induction false} RootListSorted(p: seq<Sym>, n: nat)
    ensures forall a, b :: 0 <= a < b < |RootList(p, n)| ==> RootList(p, n)[a] < RootList(p, n)[b]
  {
    hide Eval, Exp;
    if n != 0 {
      RootListSorted(p, n - 1);
    }
  }

  lemma {:induction false} RootListRoots(p: seq<Sym>, n: nat)
    ensures forall m :: 0 <= m < |RootList(p, n)| ==> Eval(p, Exp(RootList(p, n)[m])) == Zero
  {
    hide Eval, Exp;
    if n != 0 {
      RootListRoots(p, n - 1);
    }
  }

  function RootElements(roots: seq<nat>): (r: seq<Sym>)
    ensures |r| == |roots| && forall m :: 0 <= m < |r| ==> r[m] == Exp(roots[m])
  {
    seq(|roots|, m requires 0 <= m < |roots| => Exp(roots[m]))
  }

  lemma RootElementsDistinct(p: seq<Sym>, n: nat)
    requires n <= N
    ensures Distinct(RootElements(RootList(p, n))) && AreRoots(p, RootElements(RootList(p, n)))
  {
    hide Eval, Exp, RootList;
    var r := RootList(p, n);
    RootListSorted(p, n);
    RootListRoots(p, n);
    forall a, b | 0 <= a < b < |r|
      ensures RootElements(r)[a] != RootElements(r)[b]
    {
      ExpInjectiveFromOne(r[a], r[b]);
    }
  }

  /** The search never records more roots than the degree, so rootTable cannot overflow. */
  lemma RootListBound(p: seq<Sym>, n: nat)
    requires n <= N && p != [] && p[0] != Zero
    ensures |RootList(p, n)| <= Degree(p)
  {
    hide Eval, Exp, RootList;
    RootElementsDistinct(p, n);
    DegreeIsHighest(p);
    if Degree(p) < |RootList(p, n)| {
      RootBoundDegree(p, RootElements(RootList(p, n)));
      assert false;
    }
  }

  // ----- error values -----

  /** omega at the root a^i. */
  function Numerator(om: seq<Sym>, i: nat): Sym {
    Eval(om, Exp(i))
  }

  function Denominator(lam: seq<Sym>, i: nat): Sym {
    Deriv(lam, Exp(i))
  }

  /** The correction for the root a^i: omega times the locator, divided by the derivative. */
  ghost function Correction(lam: seq<Sym>, om: seq<Sym>, i: nat): Sym
    requires i <= N
  {
    var den := Denominator(lam, i);
    if den == Zero then Zero else Mul(Mul(Numerator(om, i), Exp(N - i)), Inv(den))
  }

  datatype Outcome = Outcome(word: seq<Sym>, count: int, failed: bool)

  /** The word and count after the roots with index j and above, last root first. */
  ghost function Process(w: seq<Sym>, lam: seq<Sym>, om: seq<Sym>, roots: seq<nat>, nroots: nat, j: nat): (r: Outcome)
    requires |w| == N && nroots <= N && j <= |roots|
    requires forall m :: 0 <= m < |roots| ==> 1 <= roots[m] <= N
    ensures |r.word| == N
    decreases |roots| - j
  {
    if j == |roots| then Outcome(w, |roots|, false)
    else
      var r := Process(w, lam, om, roots, nroots, j + 1);
      var i := roots[j];
      if r.failed then r
      else if Denominator(lam, i) == Zero then r.(failed := true)
      else if Numerator(om, i) == Zero then r
      else if i - 1 >= N - nroots then r.(count := r.count - 1)
      else r.(word := r.word[i - 1 := Add(r.word[i - 1], Correction(lam, om, i))])
  }

  lemma ProcessStart(w: seq<Sym>, lam: seq<Sym>, om: seq<Sym>, roots: seq<nat>, nroots: nat)
    requires |w| == N && nroots <= N && forall m :: 0 <= m < |roots| ==> 1 <= roots[m] <= N
    ensures Process(w, lam, om, roots, nroots, |roots|) == Outcome(w, |roots|, false)
  {
  }

  lemma ProcessStep(w: seq<Sym>, lam: seq<Sym>, om: seq<Sym>, roots: seq<nat>, nroots: nat, j: nat)
    requires |w| == N && nroots <= N && forall m :: 0 <= m < |roots| ==> 1 <= roots[m] <= N
    requires j < |roots|
    ensures var r, r' := Process(w, lam, om, roots, nroots, j + 1), Process(w, lam, om, roots, nroots, j);
            var i := roots[j];
            !r.failed ==>
              r' == if Denominator(lam, i) == Zero then r.(failed := true)
                    else if Numerator(om, i) == Zero then r
                    else if i - 1 >= N - nroots then r.(count := r.count - 1)
                    else r.(word := r.word[i - 1 := Add(r.word[i - 1], Correction(lam, om, i))])
  {
    hide Denominator, Numerator, Correction, Add;
  }

  lemma {:induction false} ProcessFailed(w: seq<Sym>, lam: seq<Sym>, om: seq<Sym>, roots: seq<nat>, nroots: nat, j: nat)
    requires |w| == N && nroots <= N && forall m :: 0 <= m < |roots| ==> 1 <= roots[m] <= N
    requires j < |roots| && Process(w, lam, om, roots, nroots, j).failed
    ensures Process(w, lam, om, roots, nroots, 0) == Process(w, lam, om, roots, nroots, j)
    decreases j
  {
    hide Denominator, Numerator, Correction, Add;
    if j > 0 {
      ProcessFailed(w, lam, om, roots, nroots, j - 1);
    }
  }

  /** The word decode_rs leaves behind and the value it returns. */
  ghost function Decode(w: seq<Sym>, nroots: nat): (r: (seq<Sym>, int))
    requires |w| == N && 2 <= nroots <= N
    ensures |r.0| == N
  {
    var s := Syndromes(w, nroots);
    if AllZero(s) then (w, 0)
    else
      var lam := Locator(s);
      var roots := RootList(lam, N);
      if |roots| != Degree(lam) then (w, -1)
      else
        var r := Process(w, lam, Evaluator(lam, s), roots, nroots, 0);
        (r.word, if r.failed then -1 else r.count)
  }

  lemma LocatorStart(s: seq<Sym>)
    requires |s| >= 2
    ensures Locator(s)[0] == One && Locator(s) != []
  {
    hide Locator, Length, Disc;
    LocatorGenerates(s);
  }

  /** When the root count equals the degree every derivative is nonzero: for an even number of roots the den == 0 exit
      of decode_rs is never taken, whatever was received. (For an odd number and degree nroots - 1 the loop over the
      even indices reaches Lambda[nroots], which is never set.) */
  lemma DenominatorNonZero(s: seq<Sym>, m: nat)
    requires |s| >= 2 && |RootList(Locator(s), N)| == Degree(Locator(s)) && m < |RootList(Locator(s), N)|
    ensures Denominator(Locator(s), RootList(Locator(s), N)[m]) != Zero
  {
    hide Locator, RootList, Exp, Eval, Deriv;
    var lam := Locator(s);
    LocatorStart(s);
    RootElementsDistinct(lam, N);
    DegreeIsHighest(lam);
    SimpleRoot(lam, RootElements(RootList(lam, N)), m);
  }

  lemma {:induction false} ProcessSucceeds(w: seq<Sym>, s: seq<Sym>, om: seq<Sym>, nroots: nat, j: nat)
    requires |w| == N && nroots <= N && |s| >= 2
    requires |RootList(Locator(s), N)| == Degree(Locator(s)) && j <= |RootList(Locator(s), N)|
    ensures !Process(w, Locator(s), om, RootList(Locator(s), N), nroots, j).failed
    decreases |RootList(Locator(s), N)| - j
  {
    hide Locator, RootList, Numerator, Denominator, Add, Correction;
    if j < |RootList(Locator(s), N)| {
      ProcessSucceeds(w, s, om, nroots, j + 1);
      DenominatorNonZero(s, j);
    }
  }

  // ----- words with few errors -----

  /** w differs from the codeword c in at most nroots/2 symbols. */
  ghost predicate FewErrors(w: seq<Sym>, c: seq<Sym>, nroots: nat) {
    && |w| == |c| == N && IsCodeword(c, nroots) && 2 <= nroots <= N
    && 2 * |Support(Diff(w, c))| <= nroots
  }

  /** The inverse locators of the positions. */
  function Inverses(pos: seq<nat>): (r: seq<Sym>)
    ensures |r| == |pos| && forall m :: 0 <= m < |r| ==> r[m] == Exp(pos[m] + 1)
  {
    seq(|pos|, m requires 0 <= m < |pos| => Exp(pos[m] + 1))
  }

  lemma InverseOfPoint(i: nat)
    requires i < N
    ensures Mul(Exp(N - 1 - i), Exp(i + 1)) == One
  {
    hide Mul, Exp;
    ExpAdd(N - 1 - i, i + 1);
    ExpKeyPowers();
  }

  lemma InversesDistinct(pos: seq<nat>)
    requires forall m :: 0 <= m < |pos| ==> pos[m] < N
    requires forall m, n :: 0 <= m < n < |pos| ==> pos[m] < pos[n]
    ensures Distinct(Inverses(pos))
  {
    hide Exp;
    forall m, n | 0 <= m < n < |pos|
      ensures Inverses(pos)[m] != Inverses(pos)[n]
    {
      ExpInjectiveFromOne(pos[m] + 1, pos[n] + 1);
    }
  }

  /** Every error position gives a root of the locator. */
  lemma ErrorsAreRoots(w: seq<Sym>, c: seq<Sym>, nroots: nat)
    requires FewErrors(w, c, nroots)
    ensures var s, pos := Syndromes(w, nroots), Support(Diff(w, c));
            Length(s) <= |pos| && InverseRoots(Locator(s), Points(pos), Inverses(pos))
  {
    hide Mul, Exp, Eval, Locator, Length, Horner, PowerSum, Add, Support;
    var s, e := Syndromes(w, nroots), Diff(w, c);
    var pos := Support(e);
    var ws, xs, zs := Weights(e, pos), Points(pos), Inverses(pos);
    SyndromesArePowerSums(w, c, nroots);
    SupportSorted(e);
    PointsDistinct(pos);
    LengthBound(s, ws, xs);
    forall m | 0 <= m < |pos|
      ensures Mul(xs[m], zs[m]) == One && Eval(Locator(s), zs[m]) == Zero
    {
      InverseOfPoint(pos[m]);
      SupportMember(e, pos[m]);
      assert pos[m] in pos;
      LocatorRoot(s, ws, xs, m, zs[m]);
    }
  }

  /** The locator has a root at a^(i+1) exactly when symbol i is wrong. */
  lemma RootIffError(w: seq<Sym>, c: seq<Sym>, nroots: nat, i: nat)
    requires FewErrors(w, c, nroots) && i < N
    ensures Eval(Locator(Syndromes(w, nroots)), Exp(i + 1)) == Zero <==> Diff(w, c)[i] != Zero
  {
    hide Mul, Exp, Eval, Locator, Length, Horner, Add, Support, IsCodeword;
    var e := Diff(w, c);
    var pos := Support(e);
    SupportMember(e, i);
    if e[i] != Zero {
      ErrorsAreRoots(w, c, nroots);
      var m :| 0 <= m < |pos| && pos[m] == i;
      assert Inverses(pos)[m] == Exp(i + 1);
    } else {
      NoOtherRoot(w, c, nroots, i);
    }
  }

  lemma NoOtherRoot(w: seq<Sym>, c: seq<Sym>, nroots: nat, i: nat)
    requires FewErrors(w, c, nroots) && i < N && i !in Support(Diff(w, c))
    ensures Eval(Locator(Syndromes(w, nroots)), Exp(i + 1)) != Zero
  {
    hide Mul, Exp, Eval, Locator, Length, Horner, Add, Support, Disc, IsCodeword;
    var s, pos := Syndromes(w, nroots), Support(Diff(w, c));
    ErrorsAreRoots(w, c, nroots);
    LocatorGenerates(s);
    SupportSorted(Diff(w, c));
    InversesDistinct(pos);
    forall m | 0 <= m < |pos|
      ensures Inverses(pos)[m] != Exp(i + 1)
    {
      OtherRoot(pos[m], i);
    }
    if Eval(Locator(s), Exp(i + 1)) == Zero {
      RootBoundDegree(Locator(s), Inverses(pos) + [Exp(i + 1)]);
    }
  }

  lemma OtherRoot(a: nat, b: nat)
    requires a < N && b < N && a != b
    ensures Exp(a + 1) != Exp(b + 1)
  {
    hide Exp;
    if a < b {
      ExpInjectiveFromOne(a + 1, b + 1);
    } else {
      ExpInjectiveFromOne(b + 1, a + 1);
    }
  }

  /** The degree of the locator is the number of errors. */
  lemma LocatorDegree(w: seq<Sym>, c: seq<Sym>, nroots: nat)
    requires FewErrors(w, c, nroots)
    ensures Degree(Locator(Syndromes(w, nroots))) == |Support(Diff(w, c))|
    ensures Length(Syndromes(w, nroots)) == |Support(Diff(w, c))|
  {
    hide Mul, Exp, Eval, Locator, Length, Horner, Add, Support, Disc, IsCodeword;
    var s, e := Syndromes(w, nroots), Diff(w, c);
    var lam, pos := Locator(s), Support(e);
    ErrorsAreRoots(w, c, nroots);
    LocatorGenerates(s);
    DegreeIsHighest(lam);
    SupportSorted(e);
    InversesDistinct(pos);
    if Degree(lam) < |pos| {
      RootBoundDegree(lam, Inverses(pos));
      assert false;
    }
  }

  function PlusOne(pos: seq<nat>): (r: seq<nat>)
    ensures |r| == |pos| && forall m :: 0 <= m < |r| ==> r[m] == pos[m] + 1
  {
    seq(|pos|, m requires 0 <= m < |pos| => pos[m] + 1)
  }

  lemma SupportStep(e: seq<Sym>, n: nat)
    requires 0 < n <= |e|
    ensures PlusOne(Support(e[..n])) == PlusOne(Support(e[..n - 1])) + (if e[n - 1] == Zero then [] else [n])
  {
    assert e[..n][..n - 1] == e[..n - 1];
  }

  lemma {:induction false} RootsAreErrors(w: seq<Sym>, c: seq<Sym>, nroots: nat, n: nat)
    requires FewErrors(w, c, nroots) && n <= N
    ensures RootList(Locator(Syndromes(w, nroots)), n) == PlusOne(Support(Diff(w, c)[..n]))
  {
    hide Exp, Eval, Locator, IsCodeword, Add, Horner;
    if n != 0 {
      hide Support, PlusOne, Syndromes;
      RootsAreErrors(w, c, nroots, n - 1);
      RootIffError(w, c, nroots, n - 1);
      SupportStep(Diff(w, c), n);
    }
  }

  lemma NumeratorAtError(w: seq<Sym>, c: seq<Sym>, nroots: nat, m: nat)
    requires FewErrors(w, c, nroots) && m < |Support(Diff(w, c))|
    ensures var s, e := Syndromes(w, nroots), Diff(w, c);
            var i := Support(e)[m];
            Numerator(Evaluator(Locator(s), s), i + 1) ==
            Mul(Mul(e[i], Exp(i + 1)), Denominator(Locator(s), i + 1))
  {
    hide Mul, Exp, Eval, Locator, Length, Horner, Add, Support, Disc, IsCodeword, Deriv, PowerSum;
    var s, e := Syndromes(w, nroots), Diff(w, c);
    var pos := Support(e);
    ErrorsAreRoots(w, c, nroots);
    SyndromesArePowerSums(w, c, nroots);
    LocatorGenerates(s);
    SupportSorted(e);
    InversesDistinct(pos);
    EvaluatorAtRoot(Locator(s), s, Weights(e, pos), Points(pos), Inverses(pos), m);
  }

  lemma DenominatorAtError(w: seq<Sym>, c: seq<Sym>, nroots: nat, m: nat)
    requires FewErrors(w, c, nroots) && m < |Support(Diff(w, c))|
    ensures Denominator(Locator(Syndromes(w, nroots)), Support(Diff(w, c))[m] + 1) != Zero
  {
    hide Mul, Exp, Eval, Locator, Length, Horner, Add, Support, Disc, IsCodeword, Deriv;
    var s, e := Syndromes(w, nroots), Diff(w, c);
    ErrorsAreRoots(w, c, nroots);
    LocatorGenerates(s);
    SupportSorted(e);
    InversesDistinct(Support(e));
    SimpleRoot(Locator(s), Inverses(Support(e)), m);
  }

  /** Forney's formula gives exactly the error value. */
  lemma CorrectionIsError(w: seq<Sym>, c: seq<Sym>, nroots: nat, i: nat, s: seq<Sym>, lam: seq<Sym>)
    requires FewErrors(w, c, nroots) && s == Syndromes(w, nroots) && lam == Locator(s)
    requires i < N && Diff(w, c)[i] != Zero
    ensures Denominator(lam, i + 1) != Zero && Numerator(Evaluator(lam, s), i + 1) != Zero
    ensures Correction(lam, Evaluator(lam, s), i + 1) == Diff(w, c)[i]
  {
    hide Mul, Exp, Locator, Add, Support, IsCodeword, Evaluator, Inv, Numerator, Denominator, Syndromes;
    var e := Diff(w, c);
    SupportMember(e, i);
    var m :| 0 <= m < |Support(e)| && Support(e)[m] == i;
    NumeratorAtError(w, c, nroots, m);
    DenominatorAtError(w, c, nroots, m);
    InverseOfPoint(i);
    CorrectionAlgebra(e[i], Exp(i + 1), Exp(N - 1 - i), Denominator(lam, i + 1));
  }

  lemma CorrectionAlgebra(w: Sym, z: Sym, x: Sym, d: Sym)
    requires Mul(x, z) == One && d != Zero && w != Zero
    ensures Mul(Mul(w, z), d) != Zero
    ensures Mul(Mul(Mul(Mul(w, z), d), x), Inv(d)) == w
  {
    hide Mul, Inv;
    var a := Mul(w, z);
    MulZero(x);
    if Mul(a, d) == Zero {
      MulNonZero(a, d);
      MulNonZero(w, z);
    }
    assert Mul(a, x) == w by {
      MulAssoc(w, z, x);
      MulComm(z, x);
      MulComm(w, One);
      MulOne(w);
    }
    MulComm(Mul(a, d), x);
    MulAssoc(x, a, d);
    MulComm(x, a);
    MulAssoc(w, d, Inv(d));
    MulInv(d);
    MulComm(w, One);
    MulOne(w);
  }

  /** How many of the positions with index j and above lie at lim or beyond. */
  function Beyond(pos: seq<nat>, j: nat, lim: nat): nat
    requires j <= |pos|
    decreases |pos| - j
  {
    if j == |pos| then 0 else Beyond(pos, j + 1, lim) + (if pos[j] >= lim then 1 else 0)
  }

  /** After the positions with index j and above, those in the data part are restored. */
  ghost predicate Restored(r: Outcome, w: seq<Sym>, c: seq<Sym>, pos: seq<nat>, lim: nat, j: nat)
    requires |r.word| == |w| == |c| && j <= |pos|
    requires forall m :: 0 <= m < |pos| ==> pos[m] < |w|
  {
    && !r.failed && r.count == |pos| - Beyond(pos, j, lim)
    && (forall m :: j <= m < |pos| && pos[m] < lim ==> r.word[pos[m]] == c[pos[m]])
    && (forall p :: 0 <= p < |w| && p !in pos[j..] ==> r.word[p] == w[p])
  }

  lemma RestoredStep(r: Outcome, r': Outcome, w: seq<Sym>, c: seq<Sym>, pos: seq<nat>, lim: nat, j: nat, corr: Sym)
    requires |r.word| == |r'.word| == |w| == |c| && j < |pos| && lim <= |w|
    requires forall m :: 0 <= m < |pos| ==> pos[m] < |w|
    requires forall m, n :: 0 <= m < n < |pos| ==> pos[m] < pos[n]
    requires Restored(r, w, c, pos, lim, j + 1) && Add(w[pos[j]], corr) == c[pos[j]]
    requires r' == if pos[j] >= lim then r.(count := r.count - 1)
                   else r.(word := r.word[pos[j] := Add(r.word[pos[j]], corr)])
    ensures Restored(r', w, c, pos, lim, j)
  {
    hide Add;
    assert pos[j] !in pos[j + 1..];
    assert pos[j..] == [pos[j]] + pos[j + 1..];
  }

  lemma RestoredNone(w: seq<Sym>, c: seq<Sym>, pos: seq<nat>, lim: nat)
    requires |w| == |c| && forall m :: 0 <= m < |pos| ==> pos[m] < |w|
    ensures Restored(Outcome(w, |pos|, false), w, c, pos, lim, |pos|)
  {
  }

  /** At every position the computed correction turns the received symbol into the right one. */
  ghost predicate Mends(w: seq<Sym>, c: seq<Sym>, lam: seq<Sym>, om: seq<Sym>, pos: seq<nat>) {
    && |w| == |c| == N && (forall m :: 0 <= m < |pos| ==> pos[m] < N)
    && (forall m, n :: 0 <= m < n < |pos| ==> pos[m] < pos[n])
    && forall m :: 0 <= m < |pos| ==>
         && Denominator(lam, pos[m] + 1) != Zero && Numerator(om, pos[m] + 1) != Zero
         && Add(w[pos[m]], Correction(lam, om, pos[m] + 1)) == c[pos[m]]
  }

  lemma {:induction false} ProcessRestores(w: seq<Sym>, c: seq<Sym>, nroots: nat, lam: seq<Sym>, om: seq<Sym>,
                                           pos: seq<nat>, j: nat)
    requires |w| == N && nroots <= N && j <= |pos| && Mends(w, c, lam, om, pos)
    ensures Restored(Process(w, lam, om, PlusOne(pos), nroots, j), w, c, pos, N - nroots, j)
    decreases |pos| - j
  {
    hide Denominator, Numerator, Correction, Add, Restored, Process;
    var roots := PlusOne(pos);
    if j == |pos| {
      ProcessStart(w, lam, om, roots, nroots);
      RestoredNone(w, c, pos, N - nroots);
    } else {
      ProcessRestores(w, c, nroots, lam, om, pos, j + 1);
      var r := Process(w, lam, om, roots, nroots, j + 1);
      RestoredSucceeds(r, w, c, pos, N - nroots, j + 1);
      ProcessStep(w, lam, om, roots, nroots, j);
      RestoredStep(r, Process(w, lam, om, roots, nroots, j), w, c, pos, N - nroots, j, Correction(lam, om, pos[j] + 1));
    }
  }

  lemma ErrorsMend(w: seq<Sym>, c: seq<Sym>, nroots: nat, s: seq<Sym>, lam: seq<Sym>, pos: seq<nat>)
    requires FewErrors(w, c, nroots) && s == Syndromes(w, nroots) && lam == Locator(s) && pos == Support(Diff(w, c))
    ensures Mends(w, c, lam, Evaluator(lam, s), pos)
  {
    hide Add, Support, IsCodeword, Locator, Numerator, Denominator, Correction, Syndromes, Evaluator;
    var e := Diff(w, c);
    SupportSorted(e);
    forall m | 0 <= m < |pos|
      ensures Denominator(lam, pos[m] + 1) != Zero && Numerator(Evaluator(lam, s), pos[m] + 1) != Zero
      ensures Add(w[pos[m]], Correction(lam, Evaluator(lam, s), pos[m] + 1)) == c[pos[m]]
    {
      var p := pos[m];
      assert p in pos;
      SupportMember(e, p);
      CorrectionIsError(w, c, nroots, p, s, lam);
      AddCancel(w[p], c[p]);
    }
  }

  lemma RestoredSucceeds(r: Outcome, w: seq<Sym>, c: seq<Sym>, pos: seq<nat>, lim: nat, j: nat)
    requires |r.word| == |w| == |c| && j <= |pos|
    requires forall m :: 0 <= m < |pos| ==> pos[m] < |w|
    requires Restored(r, w, c, pos, lim, j)
    ensures !r.failed
  {
  }

  lemma {:induction false} BeyondNone(pos: seq<nat>, j: nat, lim: nat)
    requires j <= |pos| && forall m :: 0 <= m < |pos| ==> pos[m] < lim
    ensures Beyond(pos, j, lim) == 0
    decreases |pos| - j
  {
    if j < |pos| {
      BeyondNone(pos, j + 1, lim);
    }
  }

  lemma {:induction false} BeyondSnoc(pos: seq<nat>, q: nat, j: nat, lim: nat)
    requires j <= |pos|
    ensures Beyond(pos + [q], j, lim) == Beyond(pos, j, lim) + (if q >= lim then 1 else 0)
    decreases |pos| - j
  {
    if j < |pos| {
      BeyondSnoc(pos, q, j + 1, lim);
    } else {
      assert Beyond(pos + [q], j + 1, lim) == 0;
    }
  }

  /** The positions below lim are the support of the first lim symbols. */
  lemma {:induction false} BeyondSupport(e: seq<Sym>, lim: nat)
    requires lim <= |e|
    ensures |Support(e)| - Beyond(Support(e), 0, lim) == |Support(e[..lim])|
    decreases |e|
  {
    if lim == |e| {
      assert e[..lim] == e;
      BeyondNone(Support(e), 0, lim);
    } else {
      var n := |e| - 1;
      BeyondSupport(e[..n], lim);
      assert e[..n][..lim] == e[..lim];
      if e[n] != Zero {
        BeyondSnoc(Support(e[..n]), n, 0, lim);
      } else {
        assert Support(e) == Support(e[..n]);
      }
    }
  }

  /** With at most nroots/2 errors, zero syndromes mean no error at all. */
  lemma ZeroSyndromes(w: seq<Sym>, c: seq<Sym>, nroots: nat)
    requires FewErrors(w, c, nroots) && AllZero(Syndromes(w, nroots))
    ensures Support(Diff(w, c)) == []
  {
    hide Add, Mul, Exp, Horner, PowerSum, Support, IsCodeword;
    var e := Diff(w, c);
    var pos := Support(e);
    SyndromesArePowerSums(w, c, nroots);
    SupportSorted(e);
    PointsDistinct(pos);
    Vandermonde(Weights(e, pos), Points(pos));
    if pos != [] {
      SupportMember(e, pos[0]);
    }
  }

  lemma {:induction false} NoErrors(w: seq<Sym>, c: seq<Sym>, p: nat)
    requires |w| == |c| && p < |w| && p !in Support(Diff(w, c))
    ensures w[p] == c[p]
  {
    hide Add, Support;
    SupportMember(Diff(w, c), p);
    AddIsZero(w[p], c[p]);
  }

  /** The correction theorem: a block with at most nroots/2 wrong symbols is decoded to the data of
      the codeword, and the result is the number of wrong data symbols. */
  lemma DecodeCorrects(w: seq<Sym>, c: seq<Sym>, nroots: nat)
    requires FewErrors(w, c, nroots)
    ensures Decode(w, nroots).0[..N - nroots] == c[..N - nroots]
    ensures Decode(w, nroots).1 == |Support(Diff(w, c)[..N - nroots])|
  {
    hide Add, Locator, Support, IsCodeword, Process, RootList, Syndromes, Evaluator;
    var s, e, lim := Syndromes(w, nroots), Diff(w, c), N - nroots;
    var pos, lam := Support(e), Locator(s);
    BeyondSupport(e, lim);
    if AllZero(s) {
      ZeroSyndromes(w, c, nroots);
      forall p | 0 <= p < lim
        ensures w[p] == c[p]
      {
        NoErrors(w, c, p);
      }
    } else {
      RootsAreErrors(w, c, nroots, N);
      assert e[..N] == e;
      LocatorDegree(w, c, nroots);
      ErrorsMend(w, c, nroots, s, lam, pos);
      ProcessRestores(w, c, nroots, lam, Evaluator(lam, s), pos, 0);
      var r := Process(w, lam, Evaluator(lam, s), PlusOne(pos), nroots, 0);
      assert pos[0..] == pos;
      forall p | 0 <= p < lim
        ensures r.word[p] == c[p]
      {
        if p !in pos {
          NoErrors(w, c, p);
        }
      }
    }
  }
}
