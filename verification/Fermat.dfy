/** Fermat's little theorem, by the binomial expansion of (1 + x)^p: why the power p - 2 that
    the field code computes is the inverse. */
module Fermat {
  import opened Congruence

  function Pow(x: int, e: nat): int
  {
    if e == 0 then 1 else x * Pow(x, e - 1)
  }

  /** n choose k, by Pascal's rule. */
  function Choose(n: nat, k: int): nat
  {
    if k < 0 then 0 else if n == 0 then (if k == 0 then 1 else 0) else Choose(n - 1, k) + Choose(n - 1, k - 1)
  }

  lemma {:induction false} ChooseEdges(n: nat, k: int)
    ensures Choose(n, 0) == 1 && (k > n ==> Choose(n, k) == 0) && Choose(n, n) == 1
  {
    if n > 0 {
      ChooseEdges(n - 1, k);
      ChooseEdges(n - 1, k - 1);
      ChooseEdges(n - 1, n);
    }
  }

  /** The terms of the expansion of (1 + x)^n below the k-th power. */
  function Expansion(n: nat, x: int, k: nat): int
  {
    if k == 0 then 0 else Expansion(n, x, k - 1) + Choose(n, k - 1) * Pow(x, k - 1)
  }

  lemma FirstTerm(n: nat, x: int)
    ensures Expansion(n, x, 0) == 0 && Expansion(n, x, 1) == 1
  {
    ChooseEdges(n, 0);
    assert Pow(x, 0) == 1 && Choose(n, 0) * 1 == 1;
  }

  lemma Regroup(s: int, t: int, x: int, a: int, b: int, p: int)
    ensures (s + x * t) + (a + b) * (x * p) == (s + a * (x * p)) + x * (t + b * p)
  {
  }

  lemma {:induction false} ExpansionNext(n: nat, x: int, k: nat)
    ensures Expansion(n + 1, x, k + 1) == Expansion(n, x, k + 1) + x * Expansion(n, x, k)
  {
    if k == 0 {
      FirstTerm(n, x);
      FirstTerm(n + 1, x);
    } else {
      ExpansionNext(n, x, k - 1);
      var p := Pow(x, k - 1);
      assert Pow(x, k) == x * p;
      assert Choose(n + 1, k) == Choose(n, k) + Choose(n, k - 1);
      Regroup(Expansion(n, x, k), Expansion(n, x, k - 1), x, Choose(n, k), Choose(n, k - 1), p);
    }
  }

  lemma {:induction false} Binomial(n: nat, x: int)
    ensures Pow(1 + x, n) == Expansion(n, x, n + 1)
  {
    if n == 0 {
      assert Expansion(0, x, 1) == Expansion(0, x, 0) + Choose(0, 0) * Pow(x, 0);
    } else {
      Binomial(n - 1, x);
      ExpansionNext(n - 1, x, n);
      ChooseEdges(n - 1, n);
      assert Expansion(n - 1, x, n + 1) == Expansion(n - 1, x, n);
      assert (1 + x) * Pow(1 + x, n - 1) == Pow(1 + x, n - 1) + x * Pow(1 + x, n - 1);
    }
  }

  lemma {:induction false} Absorb(n: nat, k: int)
    requires n > 0 && k > 0
    ensures k * Choose(n, k) == n * Choose(n - 1, k - 1)
  {
    if n == 1 {
      ChooseEdges(0, k);
      ChooseEdges(0, k - 1);
      assert Choose(1, k) == Choose(0, k) + Choose(0, k - 1);
    } else {
      Absorb(n - 1, k);
      var a, b := Choose(n - 2, k - 1), Choose(n - 1, k - 1);
      assert Choose(n, k) == Choose(n - 1, k) + b;
      if k == 1 {
        ChooseEdges(n - 1, 1);
        ChooseEdges(n - 2, 1);
      } else {
        Absorb(n - 1, k - 1);
        assert b == a + Choose(n - 2, k - 2);
        Collected(n, k, Choose(n - 1, k), a, b, Choose(n - 2, k - 2));
      }
    }
  }

  lemma Collected(n: int, k: int, c: int, a: int, b: int, d: int)
    requires k * c == (n - 1) * a && (k - 1) * b == (n - 1) * d && b == a + d
    ensures k * (c + b) == n * b
  {
    assert k * (c + b) == k * c + (k - 1) * b + b;
    assert (n - 1) * a + (n - 1) * d == (n - 1) * (a + d);
  }

  /** p is what the modulus does not see, and no smaller number is. */
  ghost predicate PrimeAt(m: Mod, p: nat)
  {
    Prime(m) && p > 1 && m.same(p, 0) && forall k :: 0 < k < p ==> !m.same(k, 0)
  }

  /** A prime divides the inner binomial coefficients. */
  lemma InnerVanish(m: Mod, p: nat, k: nat)
    requires PrimeAt(m, p) && 0 < k < p
    ensures m.same(Choose(p, k), 0)
  {
    Absorb(p, k);
    var c := Choose(p - 1, k - 1);
    Refl(m, c);
    Products(m, p, 0, c, c);
    assert NoDivisorsAt(m, k, Choose(p, k));
  }

  lemma {:induction false} ExpansionIs(m: Mod, p: nat, x: int, k: nat)
    requires PrimeAt(m, p) && 0 < k <= p
    ensures m.same(Expansion(p, x, k), 1)
  {
    if k == 1 {
      ChooseEdges(p, 0);
      assert Expansion(p, x, 0) == 0 && Pow(x, 0) == 1;
      Refl(m, 1);
    } else {
      ExpansionIs(m, p, x, k - 1);
      InnerVanish(m, p, k - 1);
      var y := Pow(x, k - 1);
      Refl(m, y);
      Products(m, Choose(p, k - 1), 0, y, y);
      Sums(m, Expansion(p, x, k - 1), 1, Choose(p, k - 1) * y, 0);
    }
  }

  lemma PowNext(m: Mod, p: nat, x: int)
    requires PrimeAt(m, p)
    ensures m.same(Pow(1 + x, p), 1 + Pow(x, p))
  {
    Binomial(p, x);
    ExpansionIs(m, p, x, p);
    ChooseEdges(p, p);
    Refl(m, Pow(x, p));
    Sums(m, Expansion(p, x, p), 1, Pow(x, p), Pow(x, p));
  }

  lemma {:induction false} PowZero(e: nat)
    requires e > 0
    ensures Pow(0, e) == 0
  {
  }

  lemma {:induction false} PowIsSame(m: Mod, p: nat, x: nat)
    requires PrimeAt(m, p)
    ensures m.same(Pow(x, p), x)
  {
    if x == 0 {
      PowZero(p);
      Refl(m, 0);
    } else {
      PowIsSame(m, p, x - 1);
      PowNext(m, p, x - 1);
      Refl(m, 1);
      Sums(m, 1, 1, Pow(x - 1, p), x - 1);
      Trans(m, Pow(x, p), 1 + Pow(x - 1, p), x);
    }
  }

  /** Modulo a prime the power p - 2 of what is not zero is its inverse. */
  lemma Inverse(m: Mod, p: nat, x: nat)
    requires PrimeAt(m, p) && !m.same(x, 0)
    ensures m.same(x * Pow(x, p - 2), 1)
  {
    PowIsSame(m, p, x);
    assert Pow(x, p) == x * Pow(x, p - 1) && Pow(x, p - 1) == x * Pow(x, p - 2);
    assert x * Pow(x, p - 1) == Pow(x, p - 1) * x;
    Cancels(m, Pow(x, p - 1), 1, x);
  }
}
