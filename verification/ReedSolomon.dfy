/** The ReedSolomon class with fcr = 0 and prim = 1: generator construction, encoder and decoder
    working in place on arrays, each proved against the functions of the preceding modules. */
module ReedSolomonCodec {
  import opened Gf256
  import opened Poly
  import opened PowerSums
  import opened BerlekampMassey
  import opened Forney
  import opened RsCode
  import opened RsEncoder
  import opened RsDecoder
  import opened GaloisTables

  /** Facts about the constants, for proofs that hide all definitions. */
  lemma Constants()
    ensures CodeLength == N == 255 && One != Zero
  {
  }

  // ----- table arithmetic on symbols -----

  /** a * x^n for a nonzero symbol, through the tables. */
  method TimesPower(g: Galois, a: Sym, n: nat) returns (r: Sym)
    requires g.Valid() && a != Zero
    ensures r == Mul(a, Exp(n))
  {
    hide Exp, Log, Mul;
    var p := g.MultiplyPower(g.PolyToPower(a), n);
    r := g.PowerToPoly(p);
    ExpAdd(Log(a), n);
    ExpMod(Log(a) + n);
  }

  // ----- generator polynomial -----

  lemma MulLinearAt(p: seq<Sym>, c: Sym, j: nat)
    requires |p| > 0 && j <= |p|
    ensures MulLinear(p, c)[j] ==
            if j == 0 then Mul(p[0], c) else if j == |p| then p[j - 1] else Add(p[j - 1], Mul(p[j], c))
  {
    hide Add, Mul;
    if j == |p| {
      MulZero(c);
      AddZero(p[j - 1]);
    } else {
      MulComm(c, p[j]);
      AddZero(Mul(p[j], c));
    }
  }

  lemma GeneratorStep(i: nat)
    ensures Generator(i + 1) == MulLinear(Generator(i), Exp(i))
  {
  }

  /** Multiplies the generator of degree i by (x + a^i), in place and from the top down. */
  method MultiplyLinear(g: Galois, gen: array<Sym>, i: nat)
    requires g.Valid() && i + 1 < gen.Length <= N && gen != g.alphaTo
    requires gen[..i + 1] == Generator(i)
    modifies gen
    ensures gen[..i + 2] == Generator(i + 1)
  {
    hide *;
    ghost var p, c := Generator(i), Exp(i);
    ghost var q := MulLinear(p, c);
    GeneratorStep(i);
    assert forall k :: 0 <= k <= i ==> gen[k] == p[k];
    GeneratorMonic(i);
    MulLinearAt(p, c, i + 1);
    gen[i + 1] := One;
    var j := i;
    while j > 0
      invariant 0 <= j <= i && g.Valid()
      invariant forall k :: 0 <= k <= j ==> gen[k] == p[k]
      invariant forall k :: j < k <= i + 1 ==> gen[k] == q[k]
    {
      MulLinearAt(p, c, j);
      if gen[j] != Zero {
        var t := TimesPower(g, gen[j], i);
        gen[j] := Add(gen[j - 1], t);
      } else {
        MulZero(c);
        AddZero(p[j - 1]);
        gen[j] := gen[j - 1];
      }
      j := j - 1;
    }
    GeneratorNonZero(i, 0);
    MulLinearAt(p, c, 0);
    gen[0] := TimesPower(g, gen[0], i);
    assert gen[..i + 2] == q;
  }

  method BuildGenerator(g: Galois, nroots: nat) returns (gen: array<Sym>)
    requires g.Valid() && nroots < N - 1
    ensures fresh(gen) && gen[..] == Generator(nroots)
  {
    gen := new Sym[nroots + 1](_ => Zero);
    gen[0] := One;
    assert gen[..1] == [One];
    for i := 0 to nroots
      invariant g.Valid() && fresh(gen) && gen.Length == nroots + 1
      invariant gen[..i + 1] == Generator(i)
    {
      MultiplyLinear(g, gen, i);
    }
    assert gen[..nroots + 1] == gen[..];
  }

  /** The final loop of the constructor: coefficients to logarithms. */
  method ToPowers(g: Galois, gen: array<Sym>) returns (pow: array<nat>)
    requires g.Valid()
    ensures fresh(pow) && pow.Length == gen.Length
    ensures forall k :: 0 <= k < gen.Length ==> pow[k] == Power(gen[k])
  {
    hide *;
    pow := new nat[gen.Length](_ => 0);
    for i := 0 to gen.Length
      invariant g.Valid() && fresh(pow)
      invariant forall k :: 0 <= k < i ==> pow[k] == Power(gen[k])
    {
      pow[i] := g.PolyToPower(gen[i]);
    }
  }

  // ----- array steps of Berlekamp-Massey -----

  method AddScaledInPlace(g: Galois, lam: array<Sym>, c: Sym, cor: array<Sym>)
    requires g.Valid() && lam.Length == cor.Length && lam != cor && lam != g.alphaTo
    modifies lam
    ensures lam[..] == AddScaled(old(lam[..]), c, cor[..])
  {
    hide Add, Mul, Galois.Valid;
    for i := 0 to lam.Length
      invariant g.Valid()
      invariant forall k :: 0 <= k < i ==> lam[k] == Add(old(lam[k]), Mul(c, cor[k]))
      invariant forall k :: i <= k < lam.Length ==> lam[k] == old(lam[k])
    {
      var t := g.MultiplyPoly(c, cor[i]);
      lam[i] := Add(lam[i], t);
    }
  }

  method DivideInto(g: Galois, cor: array<Sym>, lam: seq<Sym>, c: Sym)
    requires g.Valid() && |lam| == cor.Length && cor != g.alphaTo && c != Zero
    modifies cor
    ensures cor[..] == Scaled(lam, Inv(c))
  {
    hide Add, Mul, Inv, Galois.Valid;
    for i := 0 to cor.Length
      invariant g.Valid()
      invariant forall k :: 0 <= k < i ==> cor[k] == Mul(lam[k], Inv(c))
    {
      cor[i] := g.DividePoly(lam[i], c);
    }
  }

  method ShiftInPlace(cor: array<Sym>)
    requires cor.Length > 0
    modifies cor
    ensures cor[..] == Shift(old(cor[..]))
  {
    var i := cor.Length - 1;
    while i >= 1
      invariant 0 <= i < cor.Length
      invariant forall k :: i < k < cor.Length ==> cor[k] == old(cor[k - 1])
      invariant forall k :: 0 <= k <= i ==> cor[k] == old(cor[k])
    {
      cor[i] := cor[i - 1];
      i := i - 1;
    }
    cor[0] := Zero;
  }

  /** The discrepancy at syndrome k. */
  method Discrepancy(g: Galois, syndromes: array<Sym>, lam: array<Sym>, k: nat) returns (error: Sym)
    requires g.Valid() && k < syndromes.Length == lam.Length && lam[0] == One
    ensures error == Disc(lam[..], syndromes[..], k)
  {
    hide Add, Mul, Galois.Valid;
    ghost var p, s := lam[..], syndromes[..];
    error := syndromes[k];
    assert Conv(p, s, k, 1) == Add(Conv(p, s, k, 0), Mul(One, s[k]));
    MulOne(s[k]);
    AddZero(s[k]);
    for i := 1 to k + 1
      invariant error == Conv(p, s, k, i)
    {
      var t := g.MultiplyPoly(syndromes[k - i], lam[i]);
      MulComm(s[k - i], p[i]);
      error := Add(error, t);
    }
  }

  lemma RunStart(s: seq<Sym>)
    requires |s| >= 2
    ensures Run(s, 1) == Init(s)
    ensures Init(s).len == 0 && Init(s).err == s[0]
    ensures forall i :: 0 <= i < |s| ==> Init(s).lam[i] == if i == 0 then One else Zero
    ensures forall i :: 0 <= i < |s| ==> Init(s).cor[i] == if i == 1 then One else Zero
  {
  }

  lemma RunStep(s: seq<Sym>, k: nat)
    requires 1 <= k < |s| && |s| >= 2
    ensures var st, st' := Run(s, k), Run(s, k + 1);
            && st.len < k
            && st'.lam == AddScaled(st.lam, st.err, st.cor) && st'.lam[0] == One
            && st'.cor == Shift(if 2 * st.len < k && st.err != Zero then Scaled(st.lam, Inv(st.err)) else st.cor)
            && st'.len == (if 2 * st.len < k && st.err != Zero then k - st.len else st.len)
            && st'.err == Disc(st'.lam, s, k)
  {
    hide Add, Mul, Inv, Disc, Corrects;
    RunGood(s, k);
    LamStep(Run(s, k), s, k);
  }

  lemma LocatorIs(s: seq<Sym>)
    requires |s| >= 2
    ensures Locator(s) == AddScaled(Run(s, |s|).lam, Run(s, |s|).err, Run(s, |s|).cor)
  {
  }

  /** Berlekamp-Massey; the locator is returned in poly form. */
  method ComputeLambdaPoly(g: Galois, syndromes: array<Sym>) returns (lam: array<Sym>)
    requires g.Valid() && syndromes.Length >= 2
    ensures fresh(lam) && lam[..] == Locator(syndromes[..])
  {
    hide *;
    ghost var s := syndromes[..];
    var nroots := syndromes.Length;
    lam := new Sym[nroots](_ => Zero);
    var cor := new Sym[nroots](_ => Zero);
    var k, len := 1, 0;
    var error := syndromes[0];
    lam[0] := One;
    cor[1] := One;
    RunStart(s);
    assert lam[..] == Init(s).lam && cor[..] == Init(s).cor;
    while k < nroots
      invariant 1 <= k <= nroots && g.Valid()
      invariant fresh(lam) && fresh(cor) && lam != cor && lam.Length == cor.Length == nroots
      invariant State(lam[..], cor[..], len, error) == Run(s, k)
    {
      len, error := LambdaStep(g, syndromes, lam, cor, k, len, error);
      k := k + 1;
    }
    LocatorIs(s);
    AddScaledInPlace(g, lam, error, cor);
  }

  /** One pass of the Berlekamp loop. */
  method LambdaStep(g: Galois, syndromes: array<Sym>, lam: array<Sym>, cor: array<Sym>, k: nat, len: nat, error: Sym)
      returns (len': nat, error': Sym)
    requires g.Valid() && 1 <= k < syndromes.Length == lam.Length == cor.Length && syndromes.Length >= 2
    requires lam != cor && syndromes != lam && syndromes != cor && lam != g.alphaTo && cor != g.alphaTo
    requires State(lam[..], cor[..], len, error) == Run(syndromes[..], k)
    modifies lam, cor
    ensures State(lam[..], cor[..], len', error') == Run(syndromes[..], k + 1)
  {
    hide *;
    RunStep(syndromes[..], k);
    var oldLam := lam[..];
    AddScaledInPlace(g, lam, error, cor);
    len' := len;
    if 2 * len < k && error != Zero {
      len' := k - len;
      DivideInto(g, cor, oldLam, error);
    }
    ShiftInPlace(cor);
    error' := Discrepancy(g, syndromes, lam, k);
  }

  /** computeLambda: the locator in power form, and its degree. */
  method ComputeLambda(g: Galois, syndromes: array<Sym>, Lambda: array<nat>) returns (degLambda: nat)
    requires g.Valid() && syndromes.Length >= 2 && Lambda.Length == syndromes.Length + 1 && Lambda != g.indexOf
    modifies Lambda
    ensures degLambda == Degree(Locator(syndromes[..]))
    ensures forall i :: 0 <= i < syndromes.Length ==> Lambda[i] == Power(Locator(syndromes[..])[i])
  {
    hide *;
    var lam := ComputeLambdaPoly(g, syndromes);
    ghost var p := Locator(syndromes[..]);
    degLambda := 0;
    DegreeEmpty(p);
    for i := 0 to syndromes.Length
      invariant g.Valid() && lam[..] == p
      invariant degLambda == Degree(p[..i])
      invariant forall k :: 0 <= k < i ==> Lambda[k] == Power(p[k])
    {
      DegreeSnoc(p, i);
      if lam[i] != Zero {
        degLambda := i;
      }
      Lambda[i] := g.PolyToPower(lam[i]);
    }
    assert p[..syndromes.Length] == p;
  }

  lemma DegreeEmpty(p: seq<Sym>)
    ensures Degree(p[..0]) == 0
  {
  }

  lemma DegreeSnoc(p: seq<Sym>, i: nat)
    requires i < |p|
    ensures Degree(p[..i + 1]) == if p[i] != Zero then i else Degree(p[..i])
  {
    assert p[..i + 1][..i] == p[..i];
  }

  // ----- syndromes -----

  /** getSyndrome: Horner evaluation at a^root. */
  method GetSyndrome(g: Galois, data: array<Sym>, root: nat) returns (syn: Sym)
    requires g.Valid() && data.Length == N && root < N
    ensures syn == Horner(data[..], Exp(root))
  {
    hide *;
    Constants();
    ghost var w, x := data[..], Exp(root);
    syn := data[0];
    HornerStart(w, x);
    for j := 1 to N
      invariant syn == Horner(w[..j], x)
    {
      HornerNext(w, j, x);
      if syn == Zero {
        MulZero(x);
        AddZero(data[j]);
        syn := data[j];
      } else {
        var base := g.MultiplyPower(0, root);
        var uu1 := g.PowPower(base, 1);
        assert uu1 == root;
        var t := TimesPower(g, syn, uu1);
        MulComm(syn, x);
        AddComm(data[j], t);
        syn := Add(data[j], t);
      }
    }
    assert w[..N] == w;
  }

  lemma HornerStart(w: seq<Sym>, x: Sym)
    requires |w| > 0
    ensures Horner(w[..1], x) == w[0]
  {
    hide *;
    assert w[..1] == [w[0]];
    HornerOne(w[0], x);
  }

  lemma HornerNext(w: seq<Sym>, j: nat, x: Sym)
    requires j < |w|
    ensures Horner(w[..j + 1], x) == Add(Mul(x, Horner(w[..j], x)), w[j])
  {
    hide *;
    assert w[..j + 1] == w[..j] + [w[j]];
    HornerSnoc(w[..j], w[j], x);
  }

  /** computeSyndromes: true if and only if every syndrome is zero. */
  method ComputeSyndromes(g: Galois, data: array<Sym>, syndromes: array<Sym>) returns (clean: bool)
    requires g.Valid() && data.Length == N && syndromes.Length <= N
    requires syndromes != data && syndromes != g.alphaTo
    modifies syndromes
    ensures syndromes[..] == Syndromes(data[..], syndromes.Length)
    ensures clean <==> AllZero(syndromes[..])
  {
    hide *;
    clean := true;
    for i := 0 to syndromes.Length
      invariant g.Valid() && data[..] == old(data[..])
      invariant forall k :: 0 <= k < i ==> syndromes[k] == Horner(data[..], Exp(k))
      invariant clean <==> forall k :: 0 <= k < i ==> syndromes[k] == Zero
    {
      syndromes[i] := GetSyndrome(g, data, i);
      if syndromes[i] != Zero {
        clean := false;
      }
    }
    AllZeroIs(syndromes[..]);
  }

  lemma AllZeroIs(s: seq<Sym>)
    ensures AllZero(s) <==> forall k :: 0 <= k < |s| ==> s[k] == Zero
  {
  }

  // ----- Chien search -----

  /** The logarithm of a * (a^i)^j, the register entry j after i rounds. */
  ghost function Register(a: Sym, i: nat, j: nat): (r: nat) {
    if a == Zero then N else (Log(a) + i * j) % N
  }

  lemma RegisterZero(a: Sym, j: nat)
    ensures Register(a, 0, j) == Power(a)
  {
    hide Log;
  }

  lemma RegisterStep(a: Sym, i: nat, j: nat)
    requires a != Zero
    ensures Register(a, i, j) < N && (Register(a, i, j) + j) % N == Register(a, i + 1, j)
  {
    hide Log;
    var x := Log(a) + i * j;
    assert Log(a) + (i + 1) * j == x + j;
    ModAddStep(x, j);
  }

  lemma ModAddStep(x: nat, j: nat)
    ensures (x % 255 + j) % 255 == (x + j) % 255
  {
    ModAddMultiple(x % 255 + j, x / 255);
  }

  lemma RegisterValue(a: Sym, i: nat, j: nat)
    requires a != Zero
    ensures Exp(Register(a, i, j)) == Mul(a, Pow(Exp(i), j))
  {
    hide Log, Exp, Mul, Pow;
    ExpMod(Log(a) + i * j);
    ExpAdd(Log(a), i * j);
    PowExp(i, j);
  }

  /** The terms above the degree vanish. */
  lemma {:induction false} EvalFromZero(p: seq<Sym>, x: Sym, j: nat)
    requires forall k :: j <= k < |p| ==> p[k] == Zero
    ensures EvalFrom(p, x, j) == Zero
    decreases |p| - j
  {
    hide Add, Mul, Pow;
    if j < |p| {
      EvalFromZero(p, x, j + 1);
      MulZero(Pow(x, j));
      AddZero(Zero);
    }
  }

  lemma EvalFromStep(p: seq<Sym>, x: Sym, j: nat, r: Sym)
    requires j < |p|
    ensures Add(Add(r, EvalFrom(p, x, j + 1)), Mul(p[j], Pow(x, j))) == Add(r, EvalFrom(p, x, j))
    ensures p[j] == Zero ==> EvalFrom(p, x, j) == EvalFrom(p, x, j + 1)
  {
    hide Add, Mul, Pow;
    var t, e := Mul(p[j], Pow(x, j)), EvalFrom(p, x, j + 1);
    AddAssoc(r, e, t);
    AddComm(e, t);
    MulZero(Pow(x, j));
    AddZero(e);
  }

  lemma EvalFromOne(p: seq<Sym>, x: Sym)
    requires |p| > 0 && p[0] == One
    ensures Eval(p, x) == Add(One, EvalFrom(p, x, 1))
  {
    hide Add, Mul, Eval;
    EvalFromStart(p, x);
    MulOne(One);
  }

  /** One round of the search: advances the registers and evaluates the locator at a^i. */
  method ChienRound(g: Galois, reg: array<nat>, deg: nat, ghost p: seq<Sym>, i: nat) returns (result: Sym)
    requires g.Valid() && reg != g.indexOf && i >= 1
    requires |p| > 0 && p[0] == One && deg < |p| <= reg.Length && forall k :: deg < k < |p| ==> p[k] == Zero
    requires forall k :: 1 <= k <= deg ==> reg[k] == Register(p[k], i - 1, k)
    modifies reg
    ensures forall k :: 1 <= k <= deg ==> reg[k] == Register(p[k], i, k)
    ensures result == Eval(p, Exp(i))
  {
    hide *;
    Constants();
    ghost var x := Exp(i);
    result := One;
    EvalFromZero(p, x, deg + 1);
    AddZero(One);
    var j := deg;
    while j > 0
      invariant 0 <= j <= deg && g.Valid()
      invariant forall k :: 1 <= k <= j ==> reg[k] == Register(p[k], i - 1, k)
      invariant forall k :: j < k <= deg ==> reg[k] == Register(p[k], i, k)
      invariant result == Add(One, EvalFrom(p, x, j + 1))
    {
      EvalFromStep(p, x, j, One);
      RegisterIsZero(p[j], i - 1, j);
      RegisterIsZero(p[j], i, j);
      if reg[j] != CodeLength {
        RegisterStep(p[j], i - 1, j);
        RegisterValue(p[j], i, j);
        reg[j] := g.MultiplyPower(reg[j], j);
        result := Add(result, g.PowerToPoly(reg[j]));
      }
      j := j - 1;
    }
    EvalFromOne(p, x);
  }

  lemma RegisterIsZero(a: Sym, i: nat, j: nat)
    ensures Register(a, i, j) <= CodeLength
    ensures Register(a, i, j) == CodeLength <==> a == Zero
  {
    hide Log;
  }

  /** computeErrors: the roots in 1..255 and their positions; -1 unless there are degree many. */
  method ComputeErrors(g: Galois, Lambda: array<nat>, deg: nat, rootTable: array<nat>, locTable: array<nat>, ghost p: seq<Sym>)
      returns (rootCount: int)
    requires g.Valid() && |p| > 0 && p[0] == One && deg == Degree(p) && Lambda.Length == |p| + 1
    requires forall k :: 0 <= k < |p| ==> Lambda[k] == Power(p[k])
    requires rootTable.Length == locTable.Length == |p| && rootTable != locTable
    requires rootTable != g.indexOf && locTable != g.indexOf && Lambda != rootTable && Lambda != locTable
    modifies rootTable, locTable
    ensures |RootList(p, N)| <= deg
    ensures forall m :: 0 <= m < |RootList(p, N)| ==>
              rootTable[m] == RootList(p, N)[m] && locTable[m] == RootList(p, N)[m] - 1
    ensures rootCount == if |RootList(p, N)| == deg then deg else -1
  {
    hide *;
    Constants();
    var reg := new nat[Lambda.Length](i requires 0 <= i < Lambda.Length reads Lambda => Lambda[i]);
    DegreeIsHighest(p);
    forall k | 1 <= k <= deg
      ensures reg[k] == Register(p[k], 0, k)
    {
      RegisterZero(p[k], k);
    }
    rootCount := 0;
    RootListZero(p);
    for i := 1 to N + 1
      invariant g.Valid() && fresh(reg) && reg.Length == |p| + 1
      invariant forall k :: 1 <= k <= deg ==> reg[k] == Register(p[k], i - 1, k)
      invariant rootCount == |RootList(p, i - 1)|
      invariant forall m :: 0 <= m < rootCount && m < |p| ==>
                  rootTable[m] == RootList(p, i - 1)[m] && locTable[m] == RootList(p, i - 1)[m] - 1
    {
      var result := ChienRound(g, reg, deg, p, i);
      RootListStep(p, i);
      RootListBound(p, i);
      if result != Zero {
        continue;
      }
      rootTable[rootCount] := i;
      locTable[rootCount] := i - 1;
      rootCount := rootCount + 1;
    }
    RootListBound(p, N);
    if rootCount != deg {
      return -1;
    }
  }

  lemma RootListZero(p: seq<Sym>)
    ensures RootList(p, 0) == []
  {
  }

  lemma RootListStep(p: seq<Sym>, i: nat)
    requires i >= 1
    ensures RootList(p, i) == RootList(p, i - 1) + (if Eval(p, Exp(i)) == Zero then [i] else [])
  {
  }

  // ----- error evaluator and error values -----

  lemma ConvDown(p: seq<Sym>, s: seq<Sym>, k: nat, j: nat, tmp: Sym)
    requires j <= k < |s| && j < |p|
    ensures Add(tmp, Conv(p, s, k, j + 1)) == Add(Add(tmp, Mul(s[k - j], p[j])), Conv(p, s, k, j))
    ensures (s[k - j] == Zero || p[j] == Zero) ==> Conv(p, s, k, j + 1) == Conv(p, s, k, j)
  {
    hide Add, Mul;
    var c, t := Conv(p, s, k, j), Mul(p[j], s[k - j]);
    MulComm(p[j], s[k - j]);
    AddComm(c, t);
    AddAssoc(tmp, t, c);
    MulZero(p[j]);
    MulZero(s[k - j]);
    AddZero(c);
  }

  lemma ConvNone(p: seq<Sym>, s: seq<Sym>, k: nat, tmp: Sym)
    requires k < |s|
    ensures Add(tmp, Conv(p, s, k, 0)) == tmp
    ensures Add(Zero, tmp) == tmp
  {
    AddZero(tmp);
  }

  lemma DiscByDegree(p: seq<Sym>, s: seq<Sym>, deg: nat, k: nat)
    requires k < |s| == |p| && deg < |p| && forall j :: deg < j < |p| ==> p[j] == Zero
    ensures Disc(p, s, k) == Conv(p, s, k, (if deg < k then deg else k) + 1)
  {
    hide Conv;
    ConvTail(p, s, k, (if deg < k then deg else k) + 1, k + 1);
  }

  /** The product of two nonzero symbols given by their logarithms. */
  method MulByPowers(g: Galois, a: nat, b: nat, ghost x: Sym, ghost y: Sym) returns (r: Sym)
    requires g.Valid() && x != Zero && y != Zero && a == Power(x) && b == Power(y)
    ensures r == Mul(x, y)
  {
    hide Exp, Log, Mul, Galois.Valid;
    var n := g.MultiplyPower(a, b);
    r := g.PowerToPoly(n);
    ExpAdd(Log(x), Log(y));
    ExpMod(Log(x) + Log(y));
  }

  lemma PowerIsZero(a: Sym)
    ensures Power(a) == CodeLength <==> a == Zero
    ensures Power(a) <= CodeLength
  {
    hide Log;
  }

  /** Coefficient i of the error evaluator. */
  method OmegaCoefficient(g: Galois, syndromes: array<Sym>, lambda: array<nat>, deg: nat, i: nat, ghost p: seq<Sym>)
      returns (tmp: Sym)
    requires g.Valid() && i < syndromes.Length == |p| < lambda.Length && deg < |p|
    requires forall k :: 0 <= k < |p| ==> lambda[k] == Power(p[k])
    requires forall k :: deg < k < |p| ==> p[k] == Zero
    ensures tmp == Disc(p, syndromes[..], i)
  {
    hide *;
    ghost var s := syndromes[..];
    tmp := Zero;
    var j: int := if deg < i then deg else i;
    DiscByDegree(p, s, deg, i);
    ConvNone(p, s, i, Disc(p, s, i));
    while j >= 0
      invariant -1 <= j <= i && j <= deg
      invariant Add(tmp, Conv(p, s, i, j + 1)) == Disc(p, s, i)
    {
      ConvDown(p, s, i, j, tmp);
      PowerIsZero(s[i - j]);
      PowerIsZero(p[j]);
      if g.PolyToPower(syndromes[i - j]) != CodeLength && lambda[j] != CodeLength {
        var res := MulByPowers(g, g.PolyToPower(syndromes[i - j]), lambda[j], s[i - j], p[j]);
        tmp := Add(tmp, res);
      }
      j := j - 1;
    }
    ConvNone(p, s, i, tmp);
  }

  /** computeOmega: the error evaluator in power form, and its degree. */
  method ComputeOmega(g: Galois, syndromes: array<Sym>, lambda: array<nat>, deg: nat, omega: array<nat>, ghost p: seq<Sym>)
      returns (degOmega: nat)
    requires g.Valid() && syndromes.Length == |p| && lambda.Length == omega.Length == |p| + 1 && deg < |p|
    requires forall k :: 0 <= k < |p| ==> lambda[k] == Power(p[k])
    requires forall k :: deg < k < |p| ==> p[k] == Zero
    requires omega != lambda && omega != g.indexOf
    modifies omega
    ensures degOmega == Degree(Evaluator(p, syndromes[..]))
    ensures forall i :: 0 <= i < |p| ==> omega[i] == Power(Evaluator(p, syndromes[..])[i])
    ensures omega[|p|] == CodeLength
  {
    hide *;
    ghost var om := Evaluator(p, syndromes[..]);
    degOmega := 0;
    DegreeEmpty(om);
    for i := 0 to syndromes.Length
      invariant g.Valid()
      invariant degOmega == Degree(om[..i])
      invariant forall k :: 0 <= k < i ==> omega[k] == Power(om[k])
    {
      DegreeSnoc(om, i);
      var tmp := OmegaCoefficient(g, syndromes, lambda, deg, i, p);
      if tmp != Zero {
        degOmega := i;
      }
      omega[i] := g.PolyToPower(tmp);
    }
    assert om[..|p|] == om;
    omega[syndromes.Length] := CodeLength;
  }

  /** c * (a^root)^i for a coefficient given by its logarithm. */
  method TermAt(g: Galois, c: nat, i: nat, root: nat, ghost x: Sym) returns (r: Sym)
    requires g.Valid() && x != Zero && c == Power(x)
    ensures r == Mul(x, Pow(Exp(root), i))
  {
    hide Exp, Log, Mul, Pow, Galois.Valid;
    var e := g.PowPower(i, root);
    var n := g.MultiplyPower(c, e);
    r := g.PowerToPoly(n);
    TermPower(x, i, root);
  }

  lemma TermPower(x: Sym, i: nat, root: nat)
    requires x != Zero
    ensures Exp((Log(x) + (i * root) % 255) % 255) == Mul(x, Pow(Exp(root), i))
  {
    hide Exp, Log, Mul, Pow;
    ExpMod(Log(x) + (i * root) % 255);
    ExpAdd(Log(x), (i * root) % 255);
    ExpMod(i * root);
    PowExp(root, i);
    assert i * root == root * i;
  }

  lemma {:induction false} DegreeAbove(p: seq<Sym>)
    ensures forall j :: Degree(p) < j < |p| ==> p[j] == Zero
  {
    if p != [] && p[|p| - 1] == Zero {
      DegreeAbove(p[..|p| - 1]);
    }
  }

  /** num1: omega at a^root. */
  method EvalOmega(g: Galois, omega: array<nat>, degOmega: nat, root: nat, ghost om: seq<Sym>) returns (num: Sym)
    requires g.Valid() && 0 < |om| <= omega.Length && degOmega == Degree(om)
    requires forall k :: 0 <= k < |om| ==> omega[k] == Power(om[k])
    ensures num == Numerator(om, root)
  {
    hide *;
    ghost var z := Exp(root);
    num := Zero;
    DegreeAbove(om);
    EvalFromZero(om, z, degOmega + 1);
    AddZero(Zero);
    var i: int := degOmega;
    while i >= 0
      invariant -1 <= i <= degOmega < |om|
      invariant num == Add(Zero, EvalFrom(om, z, i + 1))
    {
      EvalFromStep(om, z, i, Zero);
      PowerIsZero(om[i]);
      if omega[i] != CodeLength {
        var t := TermAt(g, omega[i], i, root, om[i]);
        num := Add(num, t);
      }
      i := i - 1;
    }
    NumeratorIs(om, root);
  }

  lemma NumeratorIs(om: seq<Sym>, root: nat)
    ensures Numerator(om, root) == Add(Zero, EvalFrom(om, Exp(root), 0))
  {
    hide Add, Eval, EvalFrom, Exp;
    EvalFromStart(om, Exp(root));
    AddZero(Eval(om, Exp(root)));
  }

  lemma {:induction false} DerivFromZero(p: seq<Sym>, z: Sym, i: nat)
    requires forall k :: i < k < |p| ==> p[k] == Zero
    ensures DerivFrom(p, z, i) == Zero
    decreases |p| - i
  {
    hide Add, Mul, Pow;
    if i + 1 < |p| {
      DerivFromZero(p, z, i + 2);
      MulZero(Pow(z, i));
      AddZero(Zero);
    }
  }

  lemma DerivFromStep(p: seq<Sym>, z: Sym, i: nat, r: Sym)
    requires i + 1 < |p| && r == DerivFrom(p, z, i + 2)
    ensures Add(r, Mul(p[i + 1], Pow(z, i))) == DerivFrom(p, z, i)
    ensures p[i + 1] == Zero ==> DerivFrom(p, z, i) == r
  {
    hide Add, Mul, Pow;
    AddComm(r, Mul(p[i + 1], Pow(z, i)));
    MulZero(Pow(z, i));
    AddZero(r);
  }

  lemma DenominatorIs(p: seq<Sym>, root: nat)
    ensures Denominator(p, root) == DerivFrom(p, Exp(root), 0)
  {
    hide Deriv, DerivFrom, Exp;
    DerivFromStart(p, Exp(root));
  }

  /** den: the formal derivative of the locator at a^root. */
  method EvalDerivative(g: Galois, Lambda: array<nat>, deg: nat, root: nat, ghost p: seq<Sym>) returns (den: Sym)
    requires g.Valid() && |p| % 2 == 0 && deg < |p| < Lambda.Length
    requires forall k :: 0 <= k < |p| ==> Lambda[k] == Power(p[k])
    requires forall k :: deg < k < |p| ==> p[k] == Zero
    ensures den == Denominator(p, root)
  {
    hide *;
    ghost var z := Exp(root);
    den := Zero;
    var i: int := deg - deg % 2;
    DerivFromZero(p, z, i + 2);
    while i >= 0
      invariant -2 <= i < |p| && i % 2 == 0
      invariant den == DerivFrom(p, z, i + 2)
    {
      DerivFromStep(p, z, i, den);
      PowerIsZero(p[i + 1]);
      if Lambda[i + 1] != CodeLength {
        var t := TermAt(g, Lambda[i + 1], i, root, p[i + 1]);
        den := Add(den, t);
      }
      i := i - 2;
    }
    DenominatorIs(p, root);
  }

  /** num2: the locator of the root a^root. */
  method LocatorOfRoot(g: Galois, root: nat) returns (num: Sym)
    requires g.Valid() && 1 <= root <= N
    ensures num == Exp(N - root)
  {
    hide Exp, Galois.Valid;
    var d := g.DividePower(0, 1);
    var t := g.MultiplyPower(g.PowPower(root, d), CodeLength);
    num := g.PowerToPoly(t);
    NegatedPower(root);
  }

  lemma NegatedPower(root: nat)
    requires 1 <= root <= 255
    ensures (root * 254) % 255 == (255 - root) % 255
    ensures ((root * 254) % 255 + 255) % 255 == (root * 254) % 255
    ensures Exp((root * 254) % 255) == Exp(255 - root)
  {
    hide Exp;
    assert root * 254 == 255 * (root - 1) + (255 - root);
    ModAddMultiple(255 - root, root - 1);
    ExpMod(255 - root);
  }

  /** num1 * num2 / den through the logarithms. */
  method ErrorValue(g: Galois, num1: Sym, num2: Sym, den: Sym) returns (corr: Sym)
    requires g.Valid() && num1 != Zero && num2 != Zero && den != Zero
    ensures corr == Mul(Mul(num1, num2), Inv(den))
  {
    hide Exp, Log, Mul, Galois.Valid;
    var tmp1 := CodeLength - g.PolyToPower(den);
    var tmp2 := g.MultiplyPower(g.PolyToPower(num1), g.PolyToPower(num2));
    tmp2 := g.MultiplyPower(tmp2, tmp1);
    corr := g.PowerToPoly(tmp2);
    ExpAdd(Log(num1), Log(num2));
    ExpMod(Log(num1) + Log(num2));
    ExpAdd((Log(num1) + Log(num2)) % 255, tmp1);
    ExpMod((Log(num1) + Log(num2)) % 255 + tmp1);
  }

  // ----- encoder register -----

  /** One data symbol through the register: feedback, addition of generator multiples, shift. */
  method EncodeSymbol(g: Galois, generator: array<nat>, bb: array<Sym>, d: Sym)
    requires g.Valid() && 0 < bb.Length < N && generator.Length == bb.Length + 1 && bb != g.alphaTo
    requires forall j :: 0 <= j <= bb.Length ==> generator[j] == Power(Generator(bb.Length)[j])
    modifies bb
    ensures bb[..] == EncodeStep(old(bb[..]), d)
  {
    hide *;
    var nroots := bb.Length;
    ghost var b, gen := bb[..], Generator(nroots);
    ghost var fb := Add(d, b[0]);
    var feedback := g.PolyToPower(Add(d, bb[0]));
    PowerIsZero(fb);
    if feedback != CodeLength {
      for j := 1 to nroots
        invariant g.Valid() && feedback == Power(fb)
        invariant forall k :: j <= k < nroots ==> bb[k] == b[k]
        invariant forall k :: 1 <= k < j ==> bb[k] == Add(b[k], Mul(fb, gen[nroots - k]))
      {
        GeneratorNonZero(nroots, nroots - j);
        var t := MulByPowers(g, feedback, generator[nroots - j], fb, gen[nroots - j]);
        bb[j] := Add(bb[j], t);
      }
    }
    ghost var c := bb[..];
    for i := 0 to nroots - 1
      invariant g.Valid()
      invariant forall k :: 0 <= k < i ==> bb[k] == c[k + 1]
      invariant forall k :: i <= k < nroots ==> bb[k] == c[k]
    {
      bb[i] := bb[i + 1];
    }
    if feedback != CodeLength {
      GeneratorNonZero(nroots, 0);
      bb[nroots - 1] := MulByPowers(g, feedback, generator[0], fb, gen[0]);
    } else {
      bb[nroots - 1] := Zero;
    }
    forall k | 0 <= k < nroots
      ensures bb[k] == EncodeStep(b, d)[k]
    {
      EncodeStepAt(b, d, k);
      MulZero(gen[nroots - 1 - k]);
      AddZero(Mul(fb, gen[nroots - 1 - k]));
      AddZero(c[if k + 1 < nroots then k + 1 else k]);
      AddZero(Zero);
    }
  }

  lemma ParityEmpty(msg: seq<Sym>, nroots: nat)
    requires nroots > 0
    ensures Parity(msg[..0], nroots) == Zeros(nroots)
  {
  }

  lemma ParityNext(msg: seq<Sym>, nroots: nat, i: nat)
    requires nroots > 0 && i < |msg|
    ensures Parity(msg[..i + 1], nroots) == EncodeStep(Parity(msg[..i], nroots), msg[i])
  {
    hide EncodeStep;
    assert msg[..i + 1][..i] == msg[..i];
  }

  // ----- shortened blocks -----

  /** The shortened codeword of a message: the message followed by its parity symbols. */
  function Encoded(msg: seq<Sym>, cutlen: nat, nroots: nat): (r: seq<Sym>)
    requires nroots > 0
    ensures |r| == |msg| + nroots
  {
    msg + Parity(Zeros(cutlen) + msg, nroots)
  }

  /** What dec delivers for a shortened received block: the data part and the return value. */
  ghost function Decoded(recv: seq<Sym>, cutlen: nat, nroots: nat): (r: (seq<Sym>, int))
    requires |recv| + cutlen == N && 2 <= nroots && cutlen + nroots <= N
  {
    var d := Decode(Zeros(cutlen) + recv, nroots);
    (d.0[cutlen..N - nroots], d.1)
  }

  lemma {:induction false} SupportPadded(e: seq<Sym>, cutlen: nat)
    ensures |Support(Zeros(cutlen) + e)| == |Support(e)|
    decreases |e| + cutlen
  {
    var w := Zeros(cutlen) + e;
    if e == [] {
      if cutlen > 0 {
        SupportPadded([], cutlen - 1);
        assert Zeros(cutlen - 1) + [] == w[..|w| - 1];
      }
    } else {
      var n := |e| - 1;
      SupportPadded(e[..n], cutlen);
      assert w[..|w| - 1] == Zeros(cutlen) + e[..n];
    }
  }

  lemma DiffPadded(v: seq<Sym>, w: seq<Sym>, cutlen: nat)
    requires |v| == |w|
    ensures Diff(Zeros(cutlen) + v, Zeros(cutlen) + w) == Zeros(cutlen) + Diff(v, w)
  {
    hide Add;
    AddZero(Zero);
  }

  lemma EncodedPadded(msg: seq<Sym>, cutlen: nat, nroots: nat)
    requires 2 <= nroots && |msg| + cutlen + nroots == N
    ensures IsCodeword(Zeros(cutlen) + Encoded(msg, cutlen, nroots), nroots)
  {
    hide IsCodeword, Parity;
    EncodedIsCodeword(Zeros(cutlen) + msg, nroots);
    assert Zeros(cutlen) + Encoded(msg, cutlen, nroots) == (Zeros(cutlen) + msg) + Parity(Zeros(cutlen) + msg, nroots);
  }

  /** Whatever happens to at most nroots/2 symbols of an encoded block, dec returns the message and
      the number of wrong message symbols. */
  lemma CodecCorrects(msg: seq<Sym>, cutlen: nat, nroots: nat, recv: seq<Sym>)
    requires 2 <= nroots && |msg| + cutlen + nroots == N && |recv| == |msg| + nroots
    requires 2 * |Support(Diff(recv, Encoded(msg, cutlen, nroots)))| <= nroots
    ensures Decoded(recv, cutlen, nroots).0 == msg
    ensures Decoded(recv, cutlen, nroots).1 == |Support(Diff(recv, Encoded(msg, cutlen, nroots))[..|msg|])|
  {
    hide IsCodeword, Decode, Support, Diff, Encoded, Zeros;
    var enc := Encoded(msg, cutlen, nroots);
    var z := Zeros(cutlen);
    var w, c := z + recv, z + enc;
    EncodedPadded(msg, cutlen, nroots);
    DiffPadded(recv, enc, cutlen);
    SupportPadded(Diff(recv, enc), cutlen);
    DecodeCorrects(w, c, nroots);
    var e := Diff(recv, enc);
    assert (z + e)[..N - nroots] == z + e[..|msg|];
    SupportPadded(e[..|msg|], cutlen);
    EncodedPrefix(msg, cutlen, nroots);
    assert c[..N - nroots][cutlen..] == enc[..|msg|];
    var d := Decode(w, nroots).0;
    assert d[cutlen..N - nroots] == d[..N - nroots][cutlen..];
  }

  lemma EncodedPrefix(msg: seq<Sym>, cutlen: nat, nroots: nat)
    requires nroots > 0
    ensures Encoded(msg, cutlen, nroots)[..|msg|] == msg
  {
    hide Parity;
  }

  lemma {:induction false} SupportSame(w: seq<Sym>)
    ensures Support(Diff(w, w)) == []
  {
    hide Support;
    var e := Diff(w, w);
    if Support(e) != [] {
      var i := Support(e)[0];
      SupportMember(e, i);
      AddSelf(w[i]);
    }
  }

  /** Decoding undoes encoding, with result 0. */
  lemma CodecRoundTrip(msg: seq<Sym>, cutlen: nat, nroots: nat)
    requires 2 <= nroots && |msg| + cutlen + nroots == N
    ensures Decoded(Encoded(msg, cutlen, nroots), cutlen, nroots) == (msg, 0)
  {
    hide Decoded, Encoded, Support, Diff;
    var enc := Encoded(msg, cutlen, nroots);
    SupportSame(enc);
    CodecCorrects(msg, cutlen, nroots, enc);
    BeyondSupport(Diff(enc, enc), |msg|);
  }

  // ----- error correction -----

  /** One root of the correction loop; failed is the den == 0 exit. */
  method CorrectRoot(g: Galois, nroots: nat, data: array<Sym>, omega: array<nat>, degOmega: nat,
                     Lambda: array<nat>, degLambda: nat, root: nat, loc: nat, count: int,
                     ghost lam: seq<Sym>, ghost om: seq<Sym>, ghost r: Outcome)
      returns (count': int, failed: bool)
    requires g.Valid() && data.Length == N && nroots <= N && data != g.alphaTo
    requires PowersOf(omega, om) && PowersOf(Lambda, lam) && |lam| % 2 == 0 && |om| > 0
    requires degOmega == Degree(om) && degLambda < |lam| && forall k :: degLambda < k < |lam| ==> lam[k] == Zero
    requires 1 <= root <= N && loc == root - 1 && r == Outcome(data[..], count, false)
    modifies data
    ensures Outcome(data[..], count', failed) ==
            if Denominator(lam, root) == Zero then r.(failed := true)
            else if Numerator(om, root) == Zero then r
            else if loc >= N - nroots then r.(count := r.count - 1)
            else r.(word := r.word[loc := Add(r.word[loc], Correction(lam, om, root))])
  {
    hide *;
    Constants();
    PowersOfIs(omega, om);
    PowersOfIs(Lambda, lam);
    count', failed := count, false;
    var num1 := EvalOmega(g, omega, degOmega, root, om);
    var num2 := LocatorOfRoot(g, root);
    var den := EvalDerivative(g, Lambda, degLambda, root, lam);
    if den == Zero {
      failed := true;
    } else if num1 != Zero {
      if loc >= CodeLength - nroots {
        count' := count - 1;
      } else {
        ExpNonZero(N - root);
        var corr := ErrorValue(g, num1, num2, den);
        CorrectionIs(lam, om, root);
        data[loc] := Add(data[loc], corr);
      }
    }
  }

  /** The array holds the logarithms of the polynomial's coefficients. */
  ghost predicate PowersOf(a: array<nat>, p: seq<Sym>)
    reads a
  {
    |p| < a.Length && forall k :: 0 <= k < |p| ==> a[k] == Power(p[k])
  }

  lemma PowersOfIs(a: array<nat>, p: seq<Sym>)
    ensures PowersOf(a, p) <==> |p| < a.Length && forall k :: 0 <= k < |p| ==> a[k] == Power(p[k])
  {
  }

  ghost predicate RootsIn(rootTable: array<nat>, locTable: array<nat>, roots: seq<nat>)
    reads rootTable, locTable
  {
    && |roots| <= rootTable.Length && |roots| <= locTable.Length
    && forall m :: 0 <= m < |roots| ==> rootTable[m] == roots[m] && locTable[m] + 1 == roots[m]
  }

  /** The correction loop of decode_rs, last root first. */
  method ApplyRoots(g: Galois, nroots: nat, data: array<Sym>, omega: array<nat>, degOmega: nat,
                    Lambda: array<nat>, degLambda: nat, rootTable: array<nat>, locTable: array<nat>,
                    ghost lam: seq<Sym>, ghost om: seq<Sym>, ghost roots: seq<nat>)
      returns (ret: int)
    requires g.Valid() && data.Length == N && nroots <= N && data != g.alphaTo
    requires PowersOf(omega, om) && PowersOf(Lambda, lam) && |lam| % 2 == 0 && |om| > 0
    requires degOmega == Degree(om) && degLambda == |roots| < |lam|
    requires forall k :: degLambda < k < |lam| ==> lam[k] == Zero
    requires RootsIn(rootTable, locTable, roots) && forall m :: 0 <= m < |roots| ==> 1 <= roots[m] <= N
    modifies data
    ensures var r := Process(old(data[..]), lam, om, roots, nroots, 0);
            data[..] == r.word && ret == if r.failed then -1 else r.count
  {
    hide *;
    ghost var w := data[..];
    RootsInIs(rootTable, locTable, roots);
    ProcessStart(w, lam, om, roots, nroots);
    ret := degLambda;
    var j := ret - 1;
    while j >= 0
      invariant -1 <= j < |roots| && g.Valid() && PowersOf(omega, om) && PowersOf(Lambda, lam)
      invariant Outcome(data[..], ret, false) == Process(w, lam, om, roots, nroots, j + 1)
    {
      ProcessStep(w, lam, om, roots, nroots, j);
      var failed;
      ret, failed := CorrectRoot(g, nroots, data, omega, degOmega, Lambda, degLambda, rootTable[j], locTable[j], ret,
                                 lam, om, Process(w, lam, om, roots, nroots, j + 1));
      if failed {
        ProcessFailed(w, lam, om, roots, nroots, j);
        return -1;
      }
      j := j - 1;
    }
  }

  lemma RootsInIs(rootTable: array<nat>, locTable: array<nat>, roots: seq<nat>)
    ensures RootsIn(rootTable, locTable, roots) <==>
              && |roots| <= rootTable.Length && |roots| <= locTable.Length
              && forall m :: 0 <= m < |roots| ==> rootTable[m] == roots[m] && locTable[m] + 1 == roots[m]
  {
  }

  /** The full block: cutlen zeros, then the first N - cutlen symbols of r. */
  method Padded(r: array<Sym>, cutlen: nat) returns (rf: array<Sym>)
    requires cutlen <= N <= cutlen + r.Length
    ensures fresh(rf) && rf[..] == Zeros(cutlen) + r[..N - cutlen]
  {
    rf := new Sym[N](_ => Zero);
    for i := cutlen to N
      invariant forall k :: 0 <= k < cutlen ==> rf[k] == Zero
      invariant forall k :: cutlen <= k < i ==> rf[k] == r[k - cutlen]
    {
      rf[i] := r[i - cutlen];
    }
  }

  /** Copies s into d from index start on. */
  method CopyInto(s: seq<Sym>, d: array<Sym>, start: nat)
    requires start + |s| <= d.Length
    modifies d
    ensures d[..] == old(d[..start]) + s + old(d[start + |s|..])
  {
    for i := 0 to |s|
      invariant forall k :: 0 <= k < d.Length ==> d[k] == if start <= k < start + i then s[k - start] else old(d[k])
    {
      d[start + i] := s[i];
    }
  }

  lemma EncodedIs(msg: seq<Sym>, cutlen: nat, nroots: nat)
    requires nroots > 0
    ensures Encoded(msg, cutlen, nroots) == msg + Parity(Zeros(cutlen) + msg, nroots)
  {
  }

  lemma DecodedIs(recv: seq<Sym>, cutlen: nat, nroots: nat)
    requires |recv| + cutlen == N && 2 <= nroots && cutlen + nroots <= N
    ensures var d := Decode(Zeros(cutlen) + recv, nroots);
            Decoded(recv, cutlen, nroots) == (d.0[cutlen..N - nroots], d.1)
  {
  }

  // ----- the class -----

  class ReedSolomon {
    const g: Galois
    const nroots: nat
    const generator: array<nat>

    ghost predicate Valid()
      reads g.alphaTo, g.indexOf, generator
    {
      && g.Valid() && 2 <= nroots < N - 1 && nroots % 2 == 0 && generator.Length == nroots + 1
      && generator != g.indexOf
      && forall j :: 0 <= j <= nroots ==> generator[j] == Power(Generator(nroots)[j])
    }

    constructor (nroots: nat)
      requires 2 <= nroots < N - 1 && nroots % 2 == 0
      ensures Valid() && this.nroots == nroots && fresh(g) && fresh(g.alphaTo) && fresh(g.indexOf) && fresh(generator)
    {
      var gal := new Galois();
      var gen := BuildGenerator(gal, nroots);
      hide *;
      var pow := ToPowers(gal, gen);
      this.nroots := nroots;
      g := gal;
      generator := pow;
      new;
      assert Valid() by { ValidIs(); }
    }

    /** encode_rs: leaves the parity symbols of data[..N - nroots] in bb. */
    method EncodeRs(data: array<Sym>, bb: array<Sym>)
      requires Valid() && data.Length >= N - nroots && bb.Length == nroots && bb != data && bb != g.alphaTo
      modifies bb
      ensures bb[..] == Parity(data[..N - nroots], nroots)
    {
      hide Parity, EncodeStep, Power, Generator, Galois.Valid;
      ghost var msg := data[..N - nroots];
      for i := 0 to nroots
        invariant forall k :: 0 <= k < i ==> bb[k] == Zero
        invariant Valid()
      {
        bb[i] := Zero;
      }
      ParityEmpty(msg, nroots);
      assert bb[..] == Zeros(nroots);
      for i := 0 to N - nroots
        invariant Valid() && data[..N - nroots] == msg
        invariant bb[..] == Parity(msg[..i], nroots)
      {
        ParityNext(msg, nroots, i);
        EncodeSymbol(g, generator, bb, data[i]);
      }
      assert msg[..N - nroots] == msg;
    }

    /** decode_rs: corrects the block in place. */
    method DecodeRs(data: array<Sym>) returns (ret: int)
      requires Valid() && data.Length == N && data != g.alphaTo
      modifies data
      ensures (data[..], ret) == Decode(old(data[..]), nroots)
    {
      hide *;
      Constants();
      ValidParts();
      ghost var w := data[..];
      var syndromes := new Sym[nroots](_ => Zero);
      var clean := ComputeSyndromes(g, data, syndromes);
      ghost var s := Syndromes(w, nroots);
      DecodeIs(w, nroots, s);
      if clean {
        return 0;
      }
      var Lambda := new nat[nroots + 1](_ => 0);
      var degLambda := ComputeLambda(g, syndromes, Lambda);
      ghost var lam := Locator(s);
      LocatorStart(s);
      DegreeIsHighest(lam);
      var rootTable := new nat[nroots](_ => 0);
      var locTable := new nat[nroots](_ => 0);
      ret := ComputeErrors(g, Lambda, degLambda, rootTable, locTable, lam);
      ghost var roots := RootList(lam, N);
      if ret < 0 {
        return -1;
      }
      var omega := new nat[nroots + 1](_ => 0);
      var degOmega := ComputeOmega(g, syndromes, Lambda, degLambda, omega, lam);
      ghost var om := Evaluator(lam, s);
      PowersOfIs(Lambda, lam);
      PowersOfIs(omega, om);
      RootsInIs(rootTable, locTable, roots);
      ret := ApplyRoots(g, nroots, data, omega, degOmega, Lambda, degLambda, rootTable, locTable, lam, om, roots);
    }

    /** enc: the shortened codeword of a message. */
    method Enc(r: array<Sym>, d: array<Sym>, cutlen: nat)
      requires Valid() && cutlen + nroots <= N && r.Length >= N - cutlen && d.Length >= N - cutlen && d != g.alphaTo
      modifies d
      ensures d[..N - cutlen] == Encoded(old(r[..N - nroots - cutlen]), cutlen, nroots)
      ensures d[N - cutlen..] == old(d[N - cutlen..])
    {
      hide *;
      Constants();
      ValidParts();
      var rf := Padded(r, cutlen);
      var bb := new Sym[nroots](_ => Zero);
      EncodeRs(rf, bb);
      ghost var msg := r[..N - nroots - cutlen];
      EncodedIs(msg, cutlen, nroots);
      assert r[..N - cutlen][..|msg|] == msg;
      assert rf[..N - nroots] == Zeros(cutlen) + msg;
      assert rf[cutlen..N - nroots] == rf[..N - nroots][cutlen..] == msg;
      CopyInto(rf[cutlen..N - nroots], d, 0);
      CopyInto(bb[..], d, N - cutlen - nroots);
    }

    /** dec: the corrected data symbols of a shortened block. */
    method Dec(r: array<Sym>, d: array<Sym>, cutlen: nat) returns (ret: int)
      requires Valid() && cutlen + nroots <= N && r.Length >= N - cutlen && d.Length >= N - nroots - cutlen
      modifies d
      ensures (d[..N - nroots - cutlen], ret) == Decoded(old(r[..N - cutlen]), cutlen, nroots)
      ensures d[N - nroots - cutlen..] == old(d[N - nroots - cutlen..])
    {
      hide *;
      Constants();
      ValidParts();
      var rf := Padded(r, cutlen);
      ghost var recv := r[..N - cutlen];
      assert rf[..] == Zeros(cutlen) + recv;
      DecodedIs(recv, cutlen, nroots);
      ret := DecodeRs(rf);
      var data := rf[cutlen..N - nroots];
      assert data == rf[..][cutlen..N - nroots];
      CopyInto(data, d, 0);
      assert d[..N - nroots - cutlen] == data;
    }

    lemma ValidIs()
      requires g.Valid() && 2 <= nroots < N - 1 && nroots % 2 == 0 && generator.Length == nroots + 1
      requires generator != g.indexOf
      requires forall j :: 0 <= j <= nroots ==> generator[j] == Power(Generator(nroots)[j])
      ensures Valid()
    {
    }

    lemma ValidParts()
      requires Valid()
      ensures g.Valid() && 2 <= nroots < N - 1 && nroots % 2 == 0
    {
      hide Galois.Valid;
    }
  }

  // ----- unfolding facts for DecodeRs -----

  lemma DecodeIs(w: seq<Sym>, nroots: nat, s: seq<Sym>)
    requires |w| == N && 2 <= nroots <= N && s == Syndromes(w, nroots)
    ensures AllZero(s) ==> Decode(w, nroots) == (w, 0)
    ensures !AllZero(s) && |RootList(Locator(s), N)| != Degree(Locator(s)) ==> Decode(w, nroots) == (w, -1)
    ensures !AllZero(s) && |RootList(Locator(s), N)| == Degree(Locator(s)) ==>
              var r := Process(w, Locator(s), Evaluator(Locator(s), s), RootList(Locator(s), N), nroots, 0);
              Decode(w, nroots) == (r.word, if r.failed then -1 else r.count)
  {
    hide Syndromes, AllZero, RootList, Locator, Degree, Process, Evaluator;
  }

  lemma CorrectionIs(lam: seq<Sym>, om: seq<Sym>, i: nat)
    requires i <= N && Denominator(lam, i) != Zero
    ensures Correction(lam, om, i) == Mul(Mul(Numerator(om, i), Exp(N - i)), Inv(Denominator(lam, i)))
  {
    hide Denominator, Numerator, Mul, Inv, Exp;
  }
}
