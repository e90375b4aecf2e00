/** The frequency interleaver of section 14.6 of EN 300 401: the congruential sequence
    x -> 13x + 511 modulo a power of two has full period, so createMapper fills a bijection. */
module FreqInterleaver {
  import opened Modular
  import opened Pigeonhole

  // ----- divisibility by powers of two -----

  /** 2^k divides y. */
  predicate Div2(y: int, k: nat)
    decreases k
  {
    k == 0 || (y % 2 == 0 && Div2(y / 2, k - 1))
  }

  lemma {:induction false} Div2Mod(y: int, k: nat)
    ensures Div2(y, k) <==> Mod(y, Pow2(k)) == 0
    decreases k
  {
    if k == 0 {
      ModUnique(y, 1, y, 0);
    } else {
      var m := Pow2(k - 1);
      Div2Mod(y / 2, k - 1);
      ModHalfInt(y, m);
    }
  }

  lemma ModHalfInt(y: int, m: nat)
    requires m > 0
    ensures Mod(y, 2 * m) == 2 * Mod(y / 2, m) + y % 2
  {
    hide Mod;
    ModSplit(y / 2, m);
    var q, r := y / 2 / m, Mod(y / 2, m);
    assert y == 2 * (q * m + r) + y % 2;
    assert y == q * (2 * m) + (2 * r + y % 2);
    ModUnique(y, 2 * m, q, 2 * r + y % 2);
  }

  /** An odd factor does not help divisibility. */
  lemma {:induction false} OddCancel(o: int, y: int, k: nat)
    requires o % 2 == 1 && Div2(o * y, k)
    ensures Div2(y, k)
    decreases k
  {
    if k > 0 {
      OddTimes(o, y);
      assert o * y == 2 * (o * (y / 2));
      OddCancel(o, y / 2, k - 1);
    }
  }

  lemma OddTimes(o: int, y: int)
    requires o % 2 == 1
    ensures (o * y) % 2 == y % 2
  {
    var h := o / 2;
    assert o * y == 2 * (h * y) + y;
  }

  lemma {:induction false} Div2Large(d: nat, k: nat)
    requires d > 0 && Div2(d, k)
    ensures d >= Pow2(k)
  {
    if k > 0 {
      Div2Large(d / 2, k - 1);
    }
  }

  // ----- the sequence -----

  function Pow13(n: nat): int {
    if n == 0 then 1 else 13 * Pow13(n - 1)
  }

  /** 1 + 13 + ... + 13^(n-1). */
  function Geo(n: nat): int {
    if n == 0 then 0 else 13 * Geo(n - 1) + 1
  }

  /** Element n of the sequence modulo 2^k, started at 0. */
  function Lcg(n: nat, k: nat): (x: nat)
    ensures x < Pow2(k)
  {
    if n == 0 then 0 else Mod(13 * Lcg(n - 1, k) + 511, Pow2(k))
  }

  lemma {:induction false} LcgIsGeo(n: nat, k: nat)
    ensures Lcg(n, k) == Mod(511 * Geo(n), Pow2(k))
  {
    hide Mod, Pow2;
    if n == 0 {
      ModSmall(0, Pow2(k));
    } else {
      LcgIsGeo(n - 1, k);
      var y, m := 511 * Geo(n - 1), Pow2(k);
      ModSplit(y, m);
      Linear(y, m, y / m, Mod(y, m));
      ModAddMultiple(13 * Mod(y, m) + 511, 13 * (y / m), m);
    }
  }

  lemma Linear(y: int, m: int, q: int, r: int)
    requires y == q * m + r
    ensures 13 * y + 511 == (13 * r + 511) + (13 * q) * m
  {
  }

  lemma {:induction false} GeoSum(a: nat, b: nat)
    ensures Geo(a + b) == Geo(a) + Pow13(a) * Geo(b)
  {
    if a > 0 {
      GeoSum(a - 1, b);
      assert 13 * (Pow13(a - 1) * Geo(b)) == Pow13(a) * Geo(b);
    }
  }

  lemma {:induction false} Pow13Mod4(n: nat)
    ensures Pow13(n) % 4 == 1
  {
    if n > 0 {
      Pow13Mod4(n - 1);
    }
  }

  lemma {:induction false} GeoParity(n: nat)
    ensures Geo(n) % 2 == n % 2
  {
    if n > 0 {
      GeoParity(n - 1);
    }
  }

  /** 2^k divides the n-th partial sum only if it divides n. */
  lemma {:induction false} GeoDivides(n: nat, k: nat)
    requires Div2(Geo(n), k)
    ensures Div2(n, k)
    decreases k
  {
    hide Geo;
    if k > 0 {
      GeoParity(n);
      var e := n / 2;
      var o := GeoDouble(e);
      OddCancel(o, Geo(e), k - 1);
      GeoDivides(e, k - 1);
    }
  }

  /** The sum of 2e terms is twice an odd multiple of the sum of e terms. */
  lemma GeoDouble(e: nat) returns (o: int)
    ensures o % 2 == 1 && Geo(2 * e) == 2 * (o * Geo(e))
  {
    hide *;
    GeoSum(e, e);
    assert e + e == 2 * e;
    Pow13Mod4(e);
    o := HalfOdd(Pow13(e));
    DoubleSum(Geo(e), Pow13(e), o);
  }

  lemma HalfOdd(p: int) returns (o: int)
    requires p % 4 == 1
    ensures o % 2 == 1 && p + 1 == 2 * o
  {
    var h := p / 4;
    o := 2 * h + 1;
    assert p == 4 * h + 1;
  }

  lemma DoubleSum(g: int, p: int, o: int)
    requires p + 1 == 2 * o
    ensures g + p * g == 2 * (o * g)
  {
    assert g + p * g == (p + 1) * g;
  }

  /** The first 2^k elements differ. */
  lemma LcgDistinct(i: nat, j: nat, k: nat)
    requires i < j < Pow2(k)
    ensures Lcg(i, k) != Lcg(j, k)
  {
    hide Mod, Pow2, Lcg, Geo, Pow13, Div2;
    LcgIsGeo(i, k);
    LcgIsGeo(j, k);
    if Lcg(i, k) == Lcg(j, k) {
      SameRemainder(511 * Geo(i), 511 * Geo(j), Pow2(k));
      GeoSum(i, j - i);
      DifferenceDivides(Geo(i), Geo(j), Pow13(i) * Geo(j - i), k);
      Pow13Odd(i);
      OddCancel(Pow13(i), Geo(j - i), k);
      GeoDivides(j - i, k);
      Div2Large(j - i, k);
    }
  }

  lemma DifferenceDivides(a: int, b: int, q: int, k: nat)
    requires b == a + q && Mod(511 * b - 511 * a, Pow2(k)) == 0
    ensures Div2(q, k)
  {
    hide Mod, Pow2, Div2;
    Div2Mod(511 * q, k);
    OddCancel(511, q, k);
  }

  lemma Pow13Odd(n: nat)
    ensures Pow13(n) % 2 == 1
  {
    hide Pow13;
    Pow13Mod4(n);
    var h := Pow13(n) / 4;
    assert Pow13(n) == 4 * h + 1;
    assert Pow13(n) == 2 * (2 * h) + 1;
  }

  lemma SameRemainder(a: int, b: int, n: nat)
    requires n > 0 && Mod(a, n) == Mod(b, n)
    ensures Mod(b - a, n) == 0
  {
    hide Mod;
    ModSplit(a, n);
    ModSplit(b, n);
    assert b - a == (b / n - a / n) * n + 0;
    ModUnique(b - a, n, b / n - a / n, 0);
  }

  function Elements0(n: nat, k: nat): (s: seq<nat>)
    ensures |s| == n && forall i :: 0 <= i < n ==> s[i] == Lcg(i, k)
  {
    seq(n, i requires 0 <= i < n => Lcg(i, k))
  }

  /** The sequence visits every residue exactly once per period, for every power of two. */
  lemma LcgFullPeriod(v: nat, k: nat)
    requires v < Pow2(k)
    ensures exists i :: 0 <= i < Pow2(k) && Lcg(i, k) == v
  {
    hide Mod, Pow2, Lcg;
    var s := Elements0(Pow2(k), k);
    forall i, j | 0 <= i < j < |s|
      ensures s[i] != s[j]
    {
      LcgDistinct(i, j, k);
    }
    Onto(s, v);
  }

  // ----- createMapper -----

  const Tu: nat := 2048
  const K: nat := 1536

  predicate Selected(x: int) {
    x != Tu / 2 && 256 <= x <= 256 + K
  }

  /** The selected carriers of s, as offsets from the centre, in order. */
  function Carriers(s: seq<nat>): (r: seq<int>)
    ensures |r| <= |s|
  {
    if s == [] then []
    else
      var n := |s| - 1;
      Carriers(s[..n]) + (if Selected(s[n]) then [s[n] - Tu / 2] else [])
  }

  lemma {:induction false} CarriersMember(s: seq<nat>, c: int)
    ensures c in Carriers(s) <==> exists i :: 0 <= i < |s| && Selected(s[i]) && s[i] - Tu / 2 == c
  {
    hide Selected, Tu;
    if s != [] {
      var n := |s| - 1;
      CarriersMember(s[..n], c);
      if i :| 0 <= i < |s| && Selected(s[i]) && s[i] - Tu / 2 == c {
        assert i < n ==> s[..n][i] == s[i];
      }
    }
  }

  lemma {:induction false} CarriersDistinct(s: seq<nat>)
    requires Distinct(s)
    ensures Distinct(Carriers(s))
  {
    if s != [] {
      var n := |s| - 1;
      CarriersDistinct(s[..n]);
      CarriersMember(s[..n], s[n] - Tu / 2);
    }
  }

  function Rank(c: int): int {
    if c < 0 then c + 768 else c + 767
  }

  function Ranks(cs: seq<int>): (r: seq<int>)
    ensures |r| == |cs| && forall i :: 0 <= i < |r| ==> r[i] == Rank(cs[i])
  {
    seq(|cs|, i requires 0 <= i < |cs| => Rank(cs[i]))
  }

  /** A sequence that lists every carrier of -768..768 but 0, each once, has 1536 entries. */
  lemma CarrierCount(cs: seq<int>)
    requires Distinct(cs) && forall c :: c in cs <==> -768 <= c <= 768 && c != 0
    ensures |cs| == K
  {
    forall i | 0 <= i < |cs|
      ensures 0 <= Ranks(cs)[i] < K
    {
      assert cs[i] in cs;
    }
    var rs: seq<nat> := Ranks(cs);
    forall i, j | 0 <= i < j < |rs|
      ensures rs[i] != rs[j]
    {
      assert cs[i] in cs && cs[j] in cs && cs[i] != cs[j];
    }
    AtMost(rs, K);
    ElementsSize(rs);
    BelowSize(K);
    forall v: nat | v < K
      ensures v in Elements(rs)
    {
      var c := if v < 768 then v - 768 else v - 767;
      assert c in cs;
      var i :| 0 <= i < |cs| && cs[i] == c;
      assert rs[i] == v;
    }
    SubsetSize(Below(K), Elements(rs));
  }

  lemma MapperBijection(s: seq<nat>)
    requires s == Elements0(Tu, 11)
    ensures Distinct(Carriers(s)) && |Carriers(s)| == K
    ensures forall c :: c in Carriers(s) <==> -768 <= c <= 768 && c != 0
  {
    hide Lcg;
    assert Pow2(11) == Tu by { Pow2Eleven(); }
    forall i, j | 0 <= i < j < |s|
      ensures s[i] != s[j]
    {
      LcgDistinct(i, j, 11);
    }
    CarriersDistinct(s);
    forall c
      ensures c in Carriers(s) <==> -768 <= c <= 768 && c != 0
    {
      CarriersMember(s, c);
      if -768 <= c <= 768 && c != 0 {
        LcgFullPeriod(c + 1024, 11);
        var i :| 0 <= i < Pow2(11) && Lcg(i, 11) == c + 1024;
        assert s[i] == c + 1024;
      }
    }
    CarrierCount(Carriers(s));
  }

  lemma Pow2Eleven()
    ensures Pow2(11) == 2048
  {
    assert Pow2(4) == 16;
    Pow2Add(4, 4);
    Pow2Add(8, 3);
  }

  /** The first elements of the sequence. */
  lemma FirstElements()
    ensures Lcg(0, 11) == 0 && Lcg(1, 11) == 511 && Lcg(2, 11) == 1010 && Lcg(3, 11) == 1353 && Lcg(4, 11) == 1716
  {
    hide *;
    Sizes();
    LcgStart();
    LcgStep(1);
    LcgStep(2);
    LcgStep(3);
    LcgStep(4);
    assert 511 % 2048 == 511 && 7154 % 2048 == 1010 && 13641 % 2048 == 1353 && 18100 % 2048 == 1716;
  }

  /** createMapper: the first 1536 entries are the selected carriers in the order of the sequence, a bijection onto
      -768..768 without 0. */
  method CreateMapper() returns (permTable: array<int>, count: nat)
    ensures fresh(permTable) && permTable.Length == Tu && count == K
    ensures permTable[..K] == Carriers(Elements0(Tu, 11)) && Distinct(permTable[..K])
    ensures forall c :: c in permTable[..K] <==> -768 <= c <= 768 && c != 0
    ensures forall i :: K <= i < Tu ==> permTable[i] == 0
  {
    hide *;
    Sizes();
    permTable := new int[Tu](_ => 0);
    var tmp := new nat[Tu](_ => 0);
    ghost var s := Elements0(Tu, 11);
    LcgStart();
    for i := 1 to Tu
      invariant forall j :: 0 <= j < i ==> tmp[j] == Lcg(j, 11)
      invariant forall j :: 0 <= j < Tu ==> permTable[j] == 0
    {
      LcgStep(i);
      tmp[i] := (13 * tmp[i - 1] + 511) % Tu;
    }
    assert tmp[..] == s;
    count := 0;
    CarriersEmpty(s);
    for i := 0 to Tu
      invariant tmp[..] == s && count == |Carriers(s[..i])| <= i
      invariant permTable[..count] == Carriers(s[..i])
      invariant forall j :: count <= j < Tu ==> permTable[j] == 0
    {
      CarriersStep(s, i);
      if tmp[i] == Tu / 2 {
        continue;
      }
      if tmp[i] < 256 || tmp[i] > 256 + K {
        continue;
      }
      permTable[count] := tmp[i] - Tu / 2;
      count := count + 1;
    }
    assert s[..Tu] == s;
    MapperBijection(s);
  }

  lemma Sizes()
    ensures Tu == 2048 && K == 1536
  {
  }

  lemma LcgStart()
    ensures Lcg(0, 11) == 0
  {
  }

  lemma LcgStep(i: nat)
    requires i > 0
    ensures Lcg(i, 11) == (13 * Lcg(i - 1, 11) + 511) % Tu
  {
    Pow2Eleven();
  }

  lemma CarriersEmpty(s: seq<nat>)
    ensures Carriers(s[..0]) == []
  {
  }

  lemma CarriersStep(s: seq<nat>, i: nat)
    requires i < |s|
    ensures Carriers(s[..i + 1]) ==
            Carriers(s[..i]) + (if s[i] != Tu / 2 && 256 <= s[i] <= 256 + K then [s[i] - Tu / 2] else [])
  {
    assert s[..i + 1][..i] == s[..i];
  }
}
