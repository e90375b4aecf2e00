/** Bounded distance decoding: what the decoder computes tells exactly whether a codeword lies within nroots/2 symbols. */
module RsDistance {
  import opened Gf256
  import opened Pigeonhole
  import opened Poly
  import opened BerlekampMassey
  import opened Forney
  import opened RsCode
  import opened RsDecoder
  import opened RsSoundness

  /** There is at most one codeword within nroots/2 symbols of a block. */
  lemma NearestUnique(w: seq<Sym>, c: seq<Sym>, d: seq<Sym>, nroots: nat)
    requires FewErrors(w, c, nroots) && FewErrors(w, d, nroots)
    ensures c == d
  {
    hide *;
    FewErrorsIs(w, c, nroots);
    FewErrorsIs(w, d, nroots);
    var s := Syndromes(w, nroots);
    forall i | 0 <= i < N
      ensures c[i] == d[i]
    {
      RootIffError(w, c, nroots, i);
      RootIffError(w, d, nroots, i);
      if Diff(w, c)[i] != Zero {
        CorrectionIsError(w, c, nroots, i, s, Locator(s));
        CorrectionIsError(w, d, nroots, i, s, Locator(s));
      }
      AddCancel(w[i], c[i]);
      AddCancel(w[i], d[i]);
    }
  }

  /** Only symbols at the roots change. */
  lemma ChangesAtRoots(w: seq<Sym>, ws: seq<Sym>, roots: seq<nat>)
    requires |w| == N && |ws| == |roots| && forall m :: 0 <= m < |roots| ==> 1 <= roots[m] <= N
    requires forall a, b :: 0 <= a < b < |roots| ==> roots[a] < roots[b]
    ensures |Support(Diff(w, Fixed(w, ws, roots, |roots|)))| <= |roots|
  {
    hide Add, Fixed, Support;
    var c := Fixed(w, ws, roots, |roots|);
    var e := Diff(w, c);
    var pos := Support(e);
    var ps := PlusOne(pos);
    SupportSorted(e);
    forall m | 0 <= m < |pos|
      ensures ps[m] in roots
    {
      assert pos[m] in pos;
      SupportMember(e, pos[m]);
      FixedAt(w, ws, roots, |roots|, pos[m]);
      AddSelf(w[pos[m]]);
      assert roots[..|roots|] == roots;
    }
    ElementsSize(ps);
    ElementsSize(roots);
    assert Elements(ps) <= Elements(roots);
    SubsetSize(Elements(ps), Elements(roots));
  }

  /** What the decoder sees of a block within reach: as many roots as the degree, a register of that length, and twice
      that at most the number of syndromes. */
  ghost predicate InReach(s: seq<Sym>) {
    FullyRooted(s) && Length(s) == Degree(Locator(s)) && 2 * Degree(Locator(s)) <= |s|
  }

  lemma InReachIs(s: seq<Sym>)
    ensures InReach(s) <==> FullyRooted(s) && Length(s) == Degree(Locator(s)) && 2 * Degree(Locator(s)) <= |s|
  {
    hide FullyRooted, Locator, Length, Degree;
  }

  /** The codeword within reach. */
  lemma Nearest(w: seq<Sym>, nroots: nat) returns (c: seq<Sym>)
    requires |w| == N && 2 <= nroots <= N && InReach(Syndromes(w, nroots))
    ensures FewErrors(w, c, nroots)
  {
    hide *;
    var s := Syndromes(w, nroots);
    InReachIs(s);
    FullyRootedIs(s);
    CodewordIs(w, nroots);
    if AllZero(s) {
      c := w;
      NoDifference(w, w);
    } else {
      var lam := Locator(s);
      var roots := RootList(lam, N);
      var ws := Corrections(lam, Evaluator(lam, s), roots);
      RootListSorted(lam, N);
      c := Fixed(w, ws, roots, |roots|);
      DecodeSound(w, nroots, s, lam, roots, c);
      ChangesAtRoots(w, ws, roots);
    }
    FewErrorsIs(w, c, nroots);
  }

  lemma ReachIfNear(w: seq<Sym>, c: seq<Sym>, nroots: nat)
    requires FewErrors(w, c, nroots)
    ensures InReach(Syndromes(w, nroots))
  {
    hide *;
    var s := Syndromes(w, nroots);
    FewErrorsIs(w, c, nroots);
    LocatorDegree(w, c, nroots);
    RootsAreErrors(w, c, nroots, N);
    assert Diff(w, c)[..N] == Diff(w, c);
    FullyRootedIs(s);
    InReachIs(s);
  }

  /** A codeword lies within nroots/2 symbols of a block, and then only one, if and only if the search finds as many roots
      as the degree, the register is as long, and twice that is at most nroots. */
  lemma BoundedDistance(w: seq<Sym>, nroots: nat)
    requires |w| == N && 2 <= nroots <= N
    ensures (exists c :: FewErrors(w, c, nroots)) <==> InReach(Syndromes(w, nroots))
    ensures forall c, d :: FewErrors(w, c, nroots) && FewErrors(w, d, nroots) ==> c == d
  {
    hide *;
    forall c, d | FewErrors(w, c, nroots) && FewErrors(w, d, nroots)
      ensures c == d
    {
      NearestUnique(w, c, d, nroots);
    }
    if c :| FewErrors(w, c, nroots) {
      ReachIfNear(w, c, nroots);
    }
    if InReach(Syndromes(w, nroots)) {
      var c := Nearest(w, nroots);
    }
  }
}
