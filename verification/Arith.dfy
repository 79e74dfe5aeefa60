/** Division facts proved once, so that address arithmetic elsewhere can treat quotient,
    remainder and product as plain function symbols. */
module Arith {
  function Quot(a: nat, d: nat): nat
    requires d > 0
  {
    a / d
  }

  function Rem(a: nat, d: nat): (r: nat)
    requires d > 0
    ensures r < d
  {
    a % d
  }

  function Mul(a: nat, b: nat): nat {
    a * b
  }

  function Pow2(n: nat): (p: nat)
    ensures p > 0
  {
    if n == 0 then 1 else 2 * Pow2(n - 1)
  }

  lemma {:induction false} Pow2Add(a: nat, b: nat)
    ensures Pow2(a + b) == Mul(Pow2(a), Pow2(b))
  {
    if a > 0 {
      Pow2Add(a - 1, b);
      assert Pow2(a + b) == 2 * Pow2(a + b - 1);
    }
  }

  lemma Pow2From9(n: nat)
    requires n >= 9
    ensures Pow2(n) == 512 * Pow2(n - 9)
  {
    assert Pow2(n - 3) == 8 * Pow2(n - 6) == 64 * Pow2(n - 9) by {
      assert Pow2(n - 8) == 2 * Pow2(n - 9) && Pow2(n - 6) == 4 * Pow2(n - 8);
      assert Pow2(n - 5) == 2 * Pow2(n - 6) && Pow2(n - 3) == 4 * Pow2(n - 5);
    }
    assert Pow2(n - 2) == 2 * Pow2(n - 3) && Pow2(n) == 4 * Pow2(n - 2);
  }

  lemma MulMono(w: nat, a: int, b: int)
    ensures a <= b ==> w * a <= w * b
  {
  }

  lemma DivUnique(n: nat, d: nat, q: int, r: nat)
    requires d > 0 && r < d && n == d * q + r
    ensures n / d == q && n % d == r
  {
    var k := n / d - q;
    assert n == d * (n / d) + n % d;
    assert d * k == r - n % d;
    MulGap(d, k);
  }

  lemma MulGap(d: nat, k: int)
    requires d > 0
    ensures k >= 1 ==> d * k >= d
    ensures k <= -1 ==> d * k + d <= 0
  {
  }

  /** Quotient and remainder rebuild the dividend. */
  lemma Rebuild(n: nat, d: nat)
    requires d > 0
    ensures n == Mul(Quot(n, d), d) + Rem(n, d)
  {
  }

  /** Rebuilding is unique. */
  lemma Split(q: nat, d: nat, r: nat)
    requires r < d
    ensures Quot(Mul(q, d) + r, d) == q && Rem(Mul(q, d) + r, d) == r
  {
    assert Mul(q, d) == d * q;
    DivUnique(q * d + r, d, q, r);
  }

  /** Moving by `r` inside an aligned block of `d` changes only the remainder. */
  lemma WithinBlock(a: nat, r: nat, d: nat)
    requires d > 0 && Rem(a, d) == 0 && r < d
    ensures Quot(a + r, d) == Quot(a, d) && Rem(a + r, d) == r
  {
    hide Quot, Rem, Mul;
    Rebuild(a, d);
    Split(Quot(a, d), d, r);
  }

  lemma AlignDown(a: nat, d: nat)
    requires d > 0
    ensures Rem(a, d) <= a && Rem(a - Rem(a, d), d) == 0
  {
    hide Quot, Rem, Mul;
    Rebuild(a, d);
    Split(Quot(a, d), d, 0);
  }

  /** Advancing by `j` without leaving the block of `d`. */
  lemma StayInBlock(a: nat, j: nat, d: nat)
    requires d > 0 && Rem(a, d) + j < d
    ensures Quot(a + j, d) == Quot(a, d) && Rem(a + j, d) == Rem(a, d) + j
  {
    hide Quot, Rem, Mul;
    Rebuild(a, d);
    Split(Quot(a, d), d, Rem(a, d) + j);
  }

  lemma SplitBound(q: nat, d: nat, r: nat, m: nat)
    requires r < d && q < m
    ensures Mul(q, d) + r < Mul(m, d)
  {
    MulMono(d, q + 1, m);
    assert d * (q + 1) == q * d + d;
  }

  lemma QuotBound(n: nat, d: nat, m: nat)
    requires d > 0 && n < Mul(m, d)
    ensures Quot(n, d) < m
  {
    MulMono(d, m, n / d);
  }

  lemma MulStep(d: nat, p: int, q: int)
    requires p < q
    ensures d * p + d <= d * q
  {
    MulMono(d, p + 1, q);
    assert d * (p + 1) == d * p + d;
  }

  lemma QuotMono(a: nat, b: nat, d: nat)
    requires d > 0 && a <= b
    ensures Quot(a, d) <= Quot(b, d)
  {
    hide Quot, Rem, Mul;
    var p, q := Quot(b, d), Quot(a, d);
    if p < q {
      RebuildPlain(a, d);
      RebuildPlain(b, d);
      MulStep(d, p, q);
    }
  }

  lemma RebuildPlain(n: nat, d: nat)
    requires d > 0
    ensures n == d * Quot(n, d) + Rem(n, d) && Rem(n, d) < d
  {
  }
}
