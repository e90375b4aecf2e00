/** Remainders by a variable modulus, and masks of low bits. */
module Modular {

  function Mod(x: int, n: nat): (r: nat)
    requires n > 0
    ensures r < n
  {
    x % n
  }

  /** r is the remainder of x if it has the right range and differs by a multiple of n. */
  lemma ModUnique(x: int, n: nat, q: int, r: nat)
    requires n > 0 && r < n && x == q * n + r
    ensures Mod(x, n) == r && x / n == q
  {
    QuotientUnique(q, r, x / n, x % n, n);
  }

  lemma Split(hi: int, lo: nat, w: nat)
    requires w > 0 && lo < w
    ensures (w * hi + lo) / w == hi && (w * hi + lo) % w == lo
  {
    ModUnique(w * hi + lo, w, hi, lo);
  }

  lemma QuotientUnique(q: int, r: nat, q': int, r': nat, n: nat)
    requires r < n && r' < n && q * n + r == q' * n + r'
    ensures q == q' && r == r'
  {
    MulBound(q - q', n);
    assert (q - q') * n == q * n - q' * n;
  }

  lemma MulBound(k: int, n: nat)
    ensures k >= 1 ==> k * n >= n
    ensures k <= -1 ==> k * n <= 0 - n
  {
    if k >= 1 {
      assert k * n == n + (k - 1) * n;
    } else if k <= -1 {
      assert k * n == (k + 1) * n - n;
      assert (k + 1) * n == -((-k - 1) * n);
    }
  }

  lemma ModSplit(x: int, n: nat)
    requires n > 0
    ensures x == (x / n) * n + Mod(x, n)
  {
  }

  lemma ModSmall(x: nat, n: nat)
    requires x < n
    ensures Mod(x, n) == x
  {
    ModUnique(x, n, 0, x);
  }

  lemma ModAddMultiple(x: int, k: int, n: nat)
    requires n > 0
    ensures Mod(x + k * n, n) == Mod(x, n)
  {
    ModSplit(x, n);
    assert x + k * n == (x / n + k) * n + Mod(x, n);
    ModUnique(x + k * n, n, x / n + k, Mod(x, n));
  }

  /** Adding to a remainder or to the number itself makes no difference. */
  lemma ModAdd(x: int, k: int, n: nat)
    requires n > 0
    ensures Mod(Mod(x, n) + k, n) == Mod(x + k, n)
  {
    hide Mod;
    ModSplit(x, n);
    ModAddMultiple(Mod(x, n) + k, x / n, n);
  }

  /** Numbers less than n apart have different remainders. */
  lemma ModDistinct(a: int, b: int, n: nat)
    requires n > 0 && a < b < a + n
    ensures Mod(a, n) != Mod(b, n)
  {
    hide Mod;
    ModSplit(a, n);
    ModSplit(b, n);
    var k := b / n - a / n;
    MulBound(k, n);
    assert k * n == (b / n) * n - (a / n) * n;
  }

  /** A remainder by 2n taken again by n. */
  lemma ModTwice(x: int, n: nat)
    requires n > 0
    ensures Mod(Mod(x, 2 * n), n) == Mod(x, n)
  {
    hide Mod;
    ModSplit(x, 2 * n);
    var k := 2 * (x / (2 * n));
    assert k * n == (x / (2 * n)) * (2 * n);
    ModAddMultiple(Mod(x, 2 * n), k, n);
  }

  /** The distance of two counters is recovered from their remainders. */
  lemma ModDistance(a: int, b: int, n: nat)
    requires n > 0 && 0 <= b - a < n
    ensures Mod(Mod(b, n) - Mod(a, n), n) == b - a
  {
    hide Mod;
    ModSplit(a, n);
    ModSplit(b, n);
    var k := a / n - b / n;
    assert Mod(b, n) - Mod(a, n) == (b - a) + k * n;
    ModAddMultiple(b - a, k, n);
    ModSmall(b - a, n);
  }

  // ----- bit masks -----

  function Pow2(k: nat): (r: nat)
    ensures r > 0
  {
    if k == 0 then 1 else 2 * Pow2(k - 1)
  }

  /** Bitwise and of two numbers. */
  function And(x: nat, y: nat): nat {
    if x == 0 then 0 else 2 * And(x / 2, y / 2) + (if x % 2 == 1 && y % 2 == 1 then 1 else 0)
  }

  /** Masking with 2^k - 1 is the remainder by 2^k. */
  lemma {:induction false} MaskIsMod(x: nat, k: nat)
    ensures And(x, Pow2(k) - 1) == Mod(x, Pow2(k))
    decreases k, x
  {
    if x == 0 {
      ModSmall(0, Pow2(k));
    } else if k == 0 {
      MaskZero(x);
      ModUnique(x, 1, x, 0);
    } else {
      var m := Pow2(k - 1);
      assert (2 * m - 1) / 2 == m - 1 && (2 * m - 1) % 2 == 1;
      MaskIsMod(x / 2, k - 1);
      ModHalf(x, m);
    }
  }

  lemma {:induction false} MaskZero(x: nat)
    ensures And(x, 0) == 0
  {
    if x != 0 {
      MaskZero(x / 2);
    }
  }

  lemma ModHalf(x: nat, m: nat)
    requires m > 0
    ensures Mod(x, 2 * m) == 2 * Mod(x / 2, m) + x % 2
  {
    hide Mod;
    ModSplit(x / 2, m);
    var q, r := x / 2 / m, Mod(x / 2, m);
    assert x == 2 * (q * m + r) + x % 2;
    assert x == q * (2 * m) + (2 * r + x % 2);
    ModUnique(x, 2 * m, q, 2 * r + x % 2);
  }

  /** A remainder by 2^32 taken again by a smaller power of two. */
  lemma WrapThenMod(x: int, k: nat)
    requires k <= 32
    ensures Mod(Mod(x, Pow2(32)), Pow2(k)) == Mod(x, Pow2(k))
  {
    hide Mod, Pow2;
    Pow2Add(k, 32 - k);
    ModSplit(x, Pow2(32));
    var q, a, b := x / Pow2(32), Pow2(k), Pow2(32 - k);
    assert q * (a * b) == (q * b) * a;
    ModAddMultiple(Mod(x, Pow2(32)), q * b, a);
  }

  /** An index computed in 32-bit arithmetic and masked, as in the ring buffer, is a remainder: negative differences of
      indices included. */
  lemma MaskedIndex(x: int, k: nat)
    requires k <= 32
    ensures And(Mod(x, Pow2(32)), Pow2(k) - 1) == Mod(x, Pow2(k))
  {
    hide *;
    MaskIsMod(Mod(x, Pow2(32)), k);
    WrapThenMod(x, k);
  }

  lemma {:induction false} Pow2Add(a: nat, b: nat)
    ensures Pow2(a + b) == Pow2(a) * Pow2(b)
  {
    if a != 0 {
      Pow2Add(a - 1, b);
    }
  }
}
