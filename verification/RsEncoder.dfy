/** The generator polynomial and the shift-register encoder of ReedSolomon, as functions on values. */
module RsEncoder {
  import opened Gf256
  import opened Poly
  import opened PowerSums
  import opened BerlekampMassey
  import opened RsCode

  // ----- generator polynomial -----

  /** p times (x + c). */
  function MulLinear(p: seq<Sym>, c: Sym): (r: seq<Sym>)
    ensures |r| == |p| + 1
  {
    AddScaled([Zero] + p, c, p + [Zero])
  }

  /** The product of (x + a^i) for i < n, a the primitive element. */
  function Generator(n: nat): (r: seq<Sym>)
    ensures |r| == n + 1
  {
    if n == 0 then [One] else MulLinear(Generator(n - 1), Exp(n - 1))
  }

  lemma {:induction false} EvalAddScaled(p: seq<Sym>, c: Sym, q: seq<Sym>, y: Sym)
    requires |p| == |q|
    ensures Eval(AddScaled(p, c, q), y) == Add(Eval(p, y), Mul(c, Eval(q, y)))
  {
    hide Add, Mul;
    if p == [] {
      MulZero(c);
      AddZero(Zero);
    } else {
      EvalAddScaled(p[1..], c, q[1..], y);
      assert AddScaled(p, c, q)[1..] == AddScaled(p[1..], c, q[1..]);
      var a, b := Eval(p[1..], y), Eval(q[1..], y);
      Distrib(y, a, Mul(c, b));
      MulAssoc(y, c, b);
      MulComm(y, c);
      MulAssoc(c, y, b);
      Distrib(c, q[0], Mul(y, b));
      AddSwap(p[0], Mul(c, q[0]), Mul(y, a), Mul(c, Mul(y, b)));
    }
  }

  lemma EvalMulLinear(p: seq<Sym>, c: Sym, y: Sym)
    ensures Eval(MulLinear(p, c), y) == Mul(Add(y, c), Eval(p, y))
  {
    hide Add, Mul;
    EvalAddScaled([Zero] + p, c, p + [Zero], y);
    assert ([Zero] + p)[1..] == p;
    AddZero(Mul(y, Eval(p, y)));
    EvalSnoc(p, Zero, y);
    MulZero(Pow(y, |p|));
    AddZero(Eval(p, y));
    DistribLeft(y, c, Eval(p, y));
  }

  lemma {:induction false} GeneratorRoot(n: nat, k: nat)
    requires k < n
    ensures Eval(Generator(n), Exp(k)) == Zero
  {
    hide Add, Mul, Eval, Exp, MulLinear;
    EvalMulLinear(Generator(n - 1), Exp(n - 1), Exp(k));
    if k == n - 1 {
      AddSelf(Exp(k));
    } else {
      GeneratorRoot(n - 1, k);
    }
    MulZero(Eval(Generator(n - 1), Exp(k)));
    MulZero(Add(Exp(k), Exp(n - 1)));
  }

  lemma {:induction false} GeneratorMonic(n: nat)
    ensures Generator(n)[n] == One
  {
    hide Add, Mul, Exp;
    if n != 0 {
      GeneratorMonic(n - 1);
      MulZero(Exp(n - 1));
      AddZero(One);
    }
  }

  /** A polynomial evaluated at a power of a is a power sum over the powers of a. */
  lemma {:induction false} EvalIsPowerSum(p: seq<Sym>, k: nat)
    ensures Eval(p, Exp(k)) == PowerSum(p, Powers(|p|), k)
    decreases |p|
  {
    hide Add, Mul, Eval, Exp, Pow;
    if p == [] {
      EvalEmpty(Exp(k));
    } else {
      var n := |p| - 1;
      EvalIsPowerSum(p[..n], k);
      assert p == p[..n] + [p[n]];
      EvalSnoc(p[..n], p[n], Exp(k));
      assert Powers(n + 1)[..n] == Powers(n);
      PowExp(k, n);
      PowExp(n, k);
      assert k * n == n * k;
    }
  }

  function Powers(n: nat): (r: seq<Sym>)
    ensures |r| == n && forall i: nat :: i < n ==> r[i] == Exp(i)
  {
    seq(n, i requires 0 <= i < n => Exp(i))
  }

  function Without(p: seq<Sym>, j: nat): (r: seq<Sym>)
    requires j < |p|
    ensures |r| == |p| - 1 && forall i :: 0 <= i < |r| ==> r[i] == if i < j then p[i] else p[i + 1]
  {
    p[..j] + p[j + 1..]
  }

  lemma {:induction false} PowerSumWithout(ws: seq<Sym>, xs: seq<Sym>, j: nat, k: nat)
    requires |ws| == |xs| && j < |ws| && ws[j] == Zero
    ensures PowerSum(Without(ws, j), Without(xs, j), k) == PowerSum(ws, xs, k)
    decreases |ws|
  {
    hide Add, Mul, Pow, Without;
    var n := |ws| - 1;
    WithoutParts(ws, j);
    WithoutParts(xs, j);
    if j == n {
      MulZero(Pow(xs[n], k));
      AddZero(PowerSum(ws[..n], xs[..n], k));
    } else {
      PowerSumWithout(ws[..n], xs[..n], j, k);
    }
  }

  lemma WithoutParts(s: seq<Sym>, j: nat)
    requires j < |s|
    ensures var n, w := |s| - 1, Without(s, j);
            if j == n then w == s[..n] else w[..n - 1] == Without(s[..n], j) && w[n - 1] == s[n]
  {
  }

  /** No coefficient of the generator polynomial is zero: encode_rs adds their logarithms unguarded. */
  lemma GeneratorNonZero(n: nat, j: nat)
    requires j <= n < N
    ensures Generator(n)[j] != Zero
  {
    hide Add, Mul, Eval, Exp, PowerSum, Generator, Pow;
    var p, xs := Generator(n), Powers(n + 1);
    GeneratorMonic(n);
    if p[j] == Zero {
      var ws, ys := Without(p, j), Without(xs, j);
      var last := ws[n - 1];
      forall a, b | 0 <= a < b < |ys|
        ensures ys[a] != ys[b]
      {
        ExpInjective(if a < j then a else a + 1, if b < j then b else b + 1);
      }
      forall k: nat | k < n
        ensures PowerSum(ws, ys, k) == Zero
      {
        GeneratorRoot(n, k);
        EvalIsPowerSum(p, k);
        PowerSumWithout(p, xs, j, k);
      }
      Vandermonde(ws, ys);
    }
  }

  // ----- encoder -----

  /** One data symbol through the feedback register of nroots cells. */
  function EncodeStep(bb: seq<Sym>, d: Sym): (r: seq<Sym>)
    requires |bb| > 0
    ensures |r| == |bb|
  {
    AddScaled(bb[1..] + [Zero], Add(d, bb[0]), Reverse(Generator(|bb|)[..|bb|]))
  }

  function Reverse(p: seq<Sym>): (r: seq<Sym>)
    ensures |r| == |p| && forall i :: 0 <= i < |p| ==> r[i] == p[|p| - 1 - i]
  {
    seq(|p|, i requires 0 <= i < |p| => p[|p| - 1 - i])
  }

  function Zeros(n: nat): (r: seq<Sym>)
    ensures |r| == n && forall i :: 0 <= i < n ==> r[i] == Zero
  {
    seq(n, _ => Zero)
  }

  /** The parity symbols of a message. */
  function Parity(msg: seq<Sym>, nroots: nat): (r: seq<Sym>)
    requires nroots > 0
    ensures |r| == nroots
  {
    if msg == [] then Zeros(nroots)
    else EncodeStep(Parity(msg[..|msg| - 1], nroots), msg[|msg| - 1])
  }

  /** The feedback symbols: the quotient of the message polynomial by the generator. */
  function Feedback(msg: seq<Sym>, nroots: nat): (r: seq<Sym>)
    requires nroots > 0
    ensures |r| == |msg|
  {
    if msg == [] then []
    else
      var n := |msg| - 1;
      Feedback(msg[..n], nroots) + [Add(msg[n], Parity(msg[..n], nroots)[0])]
  }

  lemma {:induction false} HornerReverse(p: seq<Sym>, y: Sym)
    ensures Horner(Reverse(p), y) == Eval(p, y)
  {
    hide Add, Mul;
    if p != [] {
      HornerReverse(p[1..], y);
      assert Reverse(p)[..|p| - 1] == Reverse(p[1..]);
      AddComm(p[0], Mul(y, Eval(p[1..], y)));
    }
  }

  lemma HornerOne(a: Sym, y: Sym)
    ensures Horner([a], y) == a
  {
    hide Add, Mul;
    assert [a][..0] == [];
    MulZero(y);
    AddZero(a);
  }

  lemma EncodeStepIs(bb: seq<Sym>, d: Sym)
    requires |bb| > 0
    ensures EncodeStep(bb, d) == AddScaled(bb[1..] + [Zero], Add(d, bb[0]), Reverse(Generator(|bb|)[..|bb|]))
  {
    hide Add, Generator, AddScaled, Reverse;
  }

  lemma ShiftAddAt(bb: seq<Sym>, fb: Sym, g: seq<Sym>, k: nat)
    requires |g| == |bb| && k < |bb|
    ensures AddScaled(bb[1..] + [Zero], fb, g)[k] == Add(if k + 1 < |bb| then bb[k + 1] else Zero, Mul(fb, g[k]))
  {
    hide *;
    var sh := bb[1..] + [Zero];
    assert sh[k] == if k + 1 < |bb| then bb[k + 1] else Zero;
    AddScaledAt(sh, fb, g, k);
  }

  lemma ReverseLow(p: seq<Sym>, n: nat, k: nat)
    requires k < n <= |p|
    ensures Reverse(p[..n])[k] == p[n - 1 - k]
  {
    hide *;
  }

  lemma EncodeStepCell(bb: seq<Sym>, d: Sym, g: seq<Sym>, k: nat)
    requires |g| == |bb| && k < |bb| && g == Reverse(Generator(|bb|)[..|bb|])
    ensures EncodeStep(bb, d)[k] == Add(if k + 1 < |bb| then bb[k + 1] else Zero, Mul(Add(d, bb[0]), g[k]))
  {
    hide *;
    EncodeStepIs(bb, d);
    ShiftAddAt(bb, Add(d, bb[0]), g, k);
  }

  lemma EncodeStepAt(bb: seq<Sym>, d: Sym, k: nat)
    requires k < |bb|
    ensures EncodeStep(bb, d)[k] ==
            Add(if k + 1 < |bb| then bb[k + 1] else Zero, Mul(Add(d, bb[0]), Generator(|bb|)[|bb| - 1 - k]))
  {
    hide *;
    ReverseLow(Generator(|bb|), |bb|, k);
    EncodeStepCell(bb, d, Reverse(Generator(|bb|)[..|bb|]), k);
  }

  // ----- the encoded word as a product -----

  /** The product of two polynomials, coefficient by coefficient from the lowest up: long multiplication. */
  function PolyMul(p: seq<Sym>, q: seq<Sym>): (r: seq<Sym>)
    requires p != []
    ensures |r| == |p| + |q| - 1
  {
    if q == [] then Zeros(|p| - 1)
    else AddScaled([Zero] + PolyMul(p, q[1..]), q[0], p + Zeros(|q| - 1))
  }

  lemma {:induction false} EvalZeros(n: nat, y: Sym)
    ensures Eval(Zeros(n), y) == Zero
  {
    hide Eval;
    EvalAllZero(Zeros(n), y);
  }

  lemma {:induction false} EvalPadded(p: seq<Sym>, n: nat, y: Sym)
    ensures Eval(p + Zeros(n), y) == Eval(p, y)
  {
    hide Eval;
    EvalTrim(p + Zeros(n), |p|, y);
    assert (p + Zeros(n))[..|p|] == p;
  }

  lemma EvalRaised(p: seq<Sym>, y: Sym)
    ensures Eval([Zero] + p, y) == Mul(y, Eval(p, y))
  {
    hide Add, Mul;
    assert ([Zero] + p)[1..] == p;
    AddZero(Mul(y, Eval(p, y)));
  }

  /** The value of a product is the product of the values. */
  lemma {:induction false} PolyMulEval(p: seq<Sym>, q: seq<Sym>, y: Sym)
    requires p != []
    ensures Eval(PolyMul(p, q), y) == Mul(Eval(p, y), Eval(q, y))
    decreases |q|
  {
    hide Add, Mul, Eval;
    var v := Eval(p, y);
    if q == [] {
      EvalZeros(|p| - 1, y);
      EvalEmpty(y);
      MulZero(v);
    } else {
      var a, b := Eval(q[1..], y), q[0];
      PolyMulEval(p, q[1..], y);
      EvalRaised(PolyMul(p, q[1..]), y);
      EvalPadded(p, |q| - 1, y);
      EvalAddScaled([Zero] + PolyMul(p, q[1..]), b, p + Zeros(|q| - 1), y);
      EvalFirst(q, y);
      Distrib(v, b, Mul(y, a));
      MulLeftSwap(y, v, a);
      MulComm(v, b);
      AddComm(Mul(y, Mul(v, a)), Mul(b, v));
    }
  }

  lemma EvalFirst(q: seq<Sym>, y: Sym)
    requires q != []
    ensures Eval(q, y) == Add(q[0], Mul(y, Eval(q[1..], y)))
  {
    hide Add, Mul;
  }

  /** One data symbol: the word so far moves up, and a multiple of the generator is added at its lower end. */
  lemma WordStep(m: seq<Sym>, bb: seq<Sym>, d: Sym, f: Sym, g: seq<Sym>, e: seq<Sym>)
    requires |bb| > 0 && |g| == |bb| + 1 && |e| == |bb| && f == Add(d, bb[0]) && g[|bb|] == One
    requires forall k :: 0 <= k < |e| ==> e[k] == Add((bb[1..] + [Zero])[k], Mul(f, g[|bb| - 1 - k]))
    ensures m + [d] + e == AddScaled(m + bb + [Zero], f, Zeros(|m|) + Reverse(g))
  {
    hide *;
    var n, l := |bb|, |m|;
    var u, v := m + bb + [Zero], Zeros(l) + Reverse(g);
    var r := AddScaled(u, f, v);
    MulZero(f);
    MulComm(f, One);
    MulOne(f);
    AddComm(d, bb[0]);
    AddCancel(bb[0], d);
    forall i | 0 <= i < l + n + 1
      ensures (m + [d] + e)[i] == r[i]
    {
      AddScaledAt(u, f, v, i);
      if i < l {
        AddZero(m[i]);
      } else if i > l {
        assert (m + [d] + e)[i] == e[i - l - 1] && u[i] == (bb[1..] + [Zero])[i - l - 1];
        assert v[i] == g[n - (i - l)];
      }
    }
  }

  lemma EncodeStepCells(bb: seq<Sym>, d: Sym)
    requires |bb| > 0
    ensures forall k :: 0 <= k < |bb| ==>
              EncodeStep(bb, d)[k] == Add((bb[1..] + [Zero])[k], Mul(Add(d, bb[0]), Generator(|bb|)[|bb| - 1 - k]))
  {
    hide *;
    forall k | 0 <= k < |bb|
      ensures EncodeStep(bb, d)[k] == Add((bb[1..] + [Zero])[k], Mul(Add(d, bb[0]), Generator(|bb|)[|bb| - 1 - k]))
    {
      EncodeStepAt(bb, d, k);
    }
  }

  lemma ReverseScaled(p: seq<Sym>, c: Sym, q: seq<Sym>)
    requires |p| == |q|
    ensures Reverse(AddScaled(p, c, q)) == AddScaled(Reverse(p), c, Reverse(q))
  {
    hide Add, Mul, AddScaled, Reverse;
  }

  lemma ReverseParts(w: seq<Sym>, l: nat, g: seq<Sym>, fb: seq<Sym>, f: Sym)
    ensures Reverse(w + [Zero]) == [Zero] + Reverse(w)
    ensures Reverse(Zeros(l) + Reverse(g)) == g + Zeros(l)
    ensures Reverse(fb + [f]) == [f] + Reverse(fb) && Reverse(fb + [f])[1..] == Reverse(fb)
  {
    hide Reverse, Zeros, Zero;
    assert Reverse(fb + [f]) == [f] + Reverse(fb);
  }

  /** The encoded word is the product of the generator polynomial and the polynomial of the feedback symbols, for every
      message of any length. */
  lemma {:induction false} EncodedIsMultiple(msg: seq<Sym>, nroots: nat)
    requires nroots > 0
    ensures Reverse(msg + Parity(msg, nroots)) == PolyMul(Generator(nroots), Reverse(Feedback(msg, nroots)))
  {
    hide Add, Mul, Generator, EncodeStep, AddScaled, Reverse, Zeros, Zero;
    if msg == [] {
      assert Reverse(msg + Zeros(nroots)) == Zeros(nroots);
      assert Reverse([]) == [];
    } else {
      var n := |msg| - 1;
      var m, d, g := msg[..n], msg[n], Generator(nroots);
      EncodedIsMultiple(m, nroots);
      var bb, fb := Parity(m, nroots), Feedback(m, nroots);
      var f := Add(d, bb[0]);
      EncodeStepCells(bb, d);
      GeneratorMonic(nroots);
      WordStep(m, bb, d, f, g, EncodeStep(bb, d));
      assert msg == m + [d];
      ReverseScaled(m + bb + [Zero], f, Zeros(n) + Reverse(g));
      ReverseParts(m + bb, n, g, fb, f);
    }
  }

  /** The register holds the remainder: message times x^nroots is feedback times generator plus parity. */
  lemma ParityRemainder(msg: seq<Sym>, nroots: nat)
    requires nroots > 0
    ensures |Parity(msg, nroots)| == nroots == |Generator(nroots)| - 1
    ensures var product := PolyMul(Generator(nroots), Reverse(Feedback(msg, nroots)));
            AddScaled(product, One, Reverse(Zeros(|msg|) + Parity(msg, nroots))) == Reverse(msg + Zeros(nroots))
  {
    hide Add, Mul, Generator, Parity, AddScaled, Reverse, PolyMul, Zero, One;
    EncodedIsMultiple(msg, nroots);
    var par := Parity(msg, nroots);
    var a, b := msg + par, Zeros(|msg|) + par;
    ReverseScaled(a, One, b);
    var r := AddScaled(a, One, b);
    forall i | 0 <= i < |a|
      ensures r[i] == (msg + Zeros(nroots))[i]
    {
      MulOne(b[i]);
      AddZero(a[i]);
      AddSelf(a[i]);
    }
    assert r == msg + Zeros(nroots);
  }

  lemma MulLeftSwap(a: Sym, b: Sym, c: Sym)
    ensures Mul(a, Mul(b, c)) == Mul(b, Mul(a, c))
  {
    hide Mul;
    MulAssoc(a, b, c);
    MulComm(a, b);
    MulAssoc(b, a, c);
  }

  lemma {:induction false} HornerZeros(n: nat, y: Sym)
    ensures Horner(Zeros(n), y) == Zero
  {
    hide Add, Mul;
    if n != 0 {
      HornerZeros(n - 1, y);
      assert Zeros(n)[..n - 1] == Zeros(n - 1);
      MulZero(y);
      AddZero(Zero);
    }
  }

  /** All nroots syndromes of an encoded block vanish. */
  lemma EncodedIsCodeword(msg: seq<Sym>, nroots: nat)
    requires 0 < nroots <= N && |msg| == N - nroots
    ensures IsCodeword(msg + Parity(msg, nroots), nroots)
  {
    hide Add, Mul, Generator, Horner, Eval, Exp, Parity, Feedback, PolyMul, Reverse;
    var w, q := msg + Parity(msg, nroots), Reverse(Feedback(msg, nroots));
    EncodedIsMultiple(msg, nroots);
    assert Reverse(Reverse(w)) == w;
    forall k: nat | k < nroots
      ensures Horner(w, Exp(k)) == Zero
    {
      HornerReverse(Reverse(w), Exp(k));
      PolyMulEval(Generator(nroots), q, Exp(k));
      GeneratorRoot(nroots, k);
      MulZero(Eval(q, Exp(k)));
    }
  }
}
