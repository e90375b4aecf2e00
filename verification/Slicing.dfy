/** Slices of concatenations. */
module Slicing {
  lemma Inner<T>(s: seq<T>, lo: nat, t: seq<T>, a: nat, b: nat)
    requires lo + |t| <= |s| && s[lo..lo + |t|] == t && a <= b <= |t|
    ensures s[lo + a..lo + b] == t[a..b]
  {
    forall k | 0 <= k < b - a
      ensures s[lo + a..lo + b][k] == t[a..b][k]
    {
      assert s[lo..lo + |t|][a + k] == s[lo + (a + k)];
    }
  }

  lemma Three<T>(a: seq<T>, b: seq<T>, c: seq<T>)
    ensures var s := a + b + c;
            s[0..|a|] == a && s[|a|..|a| + |b|] == b && s[|a| + |b|..|a| + |b| + |c|] == c
  {
    var s := a + b + c;
    assert s == a + (b + c);
    assert s[|a|..] == b + c;
    assert s[|a|..|a| + |b|] == s[|a|..][..|b|];
    assert s[|a| + |b|..] == s[|a|..][|b|..];
    assert s[|a| + |b|..|a| + |b| + |c|] == s[|a| + |b|..];
  }

  lemma Four<T>(a: seq<T>, b: seq<T>, c: seq<T>, d: seq<T>)
    ensures var s := a + b + c + d;
            s[0..|a|] == a && s[|a|..|a| + |b|] == b && s[|a| + |b|..|a| + |b| + |c|] == c
  {
    var s, t := a + b + c + d, a + b + c;
    Three(a, b, c);
    Three([], t, d);
    assert s == [] + t + d;
    Inner(s, 0, t, 0, |a|);
    Inner(s, 0, t, |a|, |a| + |b|);
    Inner(s, 0, t, |a| + |b|, |a| + |b| + |c|);
  }

  lemma Elements4<T>(s: seq<T>, p: nat, b: seq<T>)
    requires p + 4 <= |s| && s[p..p + 4] == b
    ensures |b| == 4 && s[p] == b[0] && s[p + 1] == b[1] && s[p + 2] == b[2] && s[p + 3] == b[3]
  {
  }
}
