/** _round_up_to_next_power_of_2 of the ring buffer, on 32-bit words. */
module RoundUp {
  import opened Modular

  /** The n low bits of x, least significant first. */
  function ToBits(x: nat, n: nat): (r: seq<bool>)
    ensures |r| == n
  {
    if n == 0 then [] else [x % 2 == 1] + ToBits(x / 2, n - 1)
  }

  function FromBits(b: seq<bool>): nat {
    if b == [] then 0 else (if b[0] then 1 else 0) + 2 * FromBits(b[1..])
  }

  lemma {:induction false} BitsRoundTrip(x: nat, n: nat)
    requires x < Pow2(n)
    ensures FromBits(ToBits(x, n)) == x
  {
    if n != 0 {
      BitsRoundTrip(x / 2, n - 1);
      assert ToBits(x, n)[1..] == ToBits(x / 2, n - 1);
    }
  }

  /** Word b or-ed with itself shifted right by i. */
  function OrShifted(b: seq<bool>, i: nat): (r: seq<bool>)
    ensures |r| == |b| && forall j :: 0 <= j < |b| ==> r[j] == (b[j] || (j + i < |b| && b[j + i]))
  {
    seq(|b|, j requires 0 <= j < |b| => b[j] || (j + i < |b| && b[j + i]))
  }

  /** Bit j says whether b has a set bit among the i bits from j on. */
  ghost predicate Smeared(b: seq<bool>, s: seq<bool>, i: nat) {
    |s| == |b| && forall j :: 0 <= j < |s| ==> (s[j] <==> exists k :: j <= k < j + i && k < |b| && b[k])
  }

  lemma SmearStep(b: seq<bool>, s: seq<bool>, i: nat)
    requires Smeared(b, s, i) && i > 0
    ensures Smeared(b, OrShifted(s, i), 2 * i)
  {
    var t := OrShifted(s, i);
    forall j | 0 <= j < |t|
      ensures t[j] <==> exists k :: j <= k < j + 2 * i && k < |b| && b[k]
    {
      if k :| j <= k < j + 2 * i && k < |b| && b[k] {
        if k >= j + i {
          assert s[j + i];
        } else {
          assert s[j];
        }
      }
    }
  }

  /** Below n everything is set, above nothing is: the word 2^n - 1. */
  lemma {:induction false} OnesValue(b: seq<bool>, n: nat)
    requires n <= |b| && forall j :: 0 <= j < |b| ==> (b[j] <==> j < n)
    ensures FromBits(b) == Pow2(n) - 1
  {
    if b != [] {
      OnesValue(b[1..], if n == 0 then 0 else n - 1);
    }
  }

  lemma {:induction false} TopBit(b: seq<bool>) returns (n: nat)
    ensures n <= |b| && forall j :: n <= j < |b| ==> !b[j]
    ensures n > 0 ==> b[n - 1] && Pow2(n - 1) <= FromBits(b)
    ensures FromBits(b) < Pow2(n)
  {
    if b == [] {
      n := 0;
    } else {
      var m := TopBit(b[1..]);
      n := if m > 0 then m + 1 else if b[0] then 1 else 0;
      assert forall j :: 1 <= j < |b| ==> b[j] == b[1..][j - 1];
    }
  }

  ghost predicate IsLeastPower(r: nat, v: nat) {
    exists n: nat :: r == Pow2(n) && v <= r && (n > 0 ==> Pow2(n - 1) < v)
  }

  lemma {:induction false} Pow2Monotone(a: nat, b: nat)
    requires a <= b
    ensures Pow2(a) <= Pow2(b)
  {
    if a < b {
      Pow2Monotone(a, b - 1);
    }
  }

  /** The least power of two not below v; beyond 2^31 the increment wraps to 0. */
  method RoundUpToPowerOf2(v: nat) returns (r: nat)
    requires v < Pow2(32)
    ensures v == 0 ==> r == 1
    ensures 0 < v <= Pow2(31) ==> IsLeastPower(r, v)
    ensures v > Pow2(31) ==> r == 0
  {
    hide Pow2;
    if v == 0 {
      return 1;
    }
    var b := ToBits(v - 1, 32);
    BitsRoundTrip(v - 1, 32);
    var s := b;
    var i := 1;
    assert Smeared(b, s, 1) by {
      forall j | 0 <= j < 32
        ensures s[j] <==> exists k :: j <= k < j + 1 && k < |b| && b[k]
      {
        assert s[j] ==> j <= j < j + 1 && b[j];
      }
    }
    while i < 32
      invariant i in {1, 2, 4, 8, 16, 32} && Smeared(b, s, i)
      decreases 32 - i
    {
      SmearStep(b, s, i);
      s := OrShifted(s, i);
      i := 2 * i;
    }
    ghost var n := TopBit(b);
    forall j | 0 <= j < 32
      ensures s[j] <==> j < n
    {
      if j < n {
        assert b[n - 1];
      }
    }
    OnesValue(s, n);
    r := Mod(FromBits(s) + 1, Pow2(32));
    RoundedIs(v, n, r);
  }

  lemma RoundedIs(v: nat, n: nat, r: nat)
    requires 0 < v && n <= 32 && v - 1 < Pow2(n) && (n > 0 ==> Pow2(n - 1) <= v - 1)
    requires r == Mod(Pow2(n), Pow2(32))
    ensures v <= Pow2(31) ==> IsLeastPower(r, v)
    ensures v > Pow2(31) ==> r == 0
  {
    hide Mod, Pow2;
    if n == 32 {
      ModUnique(Pow2(32), Pow2(32), 1, 0);
    } else {
      Pow2Monotone(n, 31);
      Pow2Strict();
      ModSmall(Pow2(n), Pow2(32));
    }
  }

  lemma Pow2Strict()
    ensures Pow2(31) < Pow2(32)
  {
  }
}
