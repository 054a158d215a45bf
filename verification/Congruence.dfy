/** Integers that a modulus does not tell apart, as a relation that sums, differences and
    products respect. */
module Congruence {
  import opened Words

  datatype Mod = Mod(same: (int, int) -> bool)

  ghost predicate ReflectsAt(m: Mod, a: int, b: int)
  {
    m.same(a, a) && (m.same(a, b) ==> m.same(b, a))
  }

  ghost predicate ChainsAt(m: Mod, a: int, b: int, c: int)
  {
    m.same(a, b) && m.same(b, c) ==> m.same(a, c)
  }

  ghost predicate ComputesAt(m: Mod, a: int, b: int, c: int, d: int)
  {
    m.same(a, b) && m.same(c, d) ==> m.same(a + c, b + d) && m.same(a - c, b - d) && m.same(a * c, b * d)
  }

  ghost predicate Lawful(m: Mod)
  {
    && (forall a, b :: ReflectsAt(m, a, b))
    && (forall a, b, c :: ChainsAt(m, a, b, c))
    && (forall a, b, c, d :: ComputesAt(m, a, b, c, d))
  }

  /** A product is zero only when a factor is: the modulus is prime. */
  ghost predicate NoDivisorsAt(m: Mod, a: int, b: int)
  {
    m.same(a * b, 0) ==> m.same(a, 0) || m.same(b, 0)
  }

  ghost predicate Prime(m: Mod)
  {
    Lawful(m) && forall a, b :: NoDivisorsAt(m, a, b)
  }

  function Modulo(p: int): Mod
    requires p > 0
  {
    Mod((x, y) => x % p == y % p)
  }

  lemma ModuloLawful(p: int)
    requires p > 0
    ensures Lawful(Modulo(p))
  {
    var m := Modulo(p);
    forall a, b, c, d ensures ComputesAt(m, a, b, c, d) {
      if a % p == b % p && c % p == d % p {
        Computes(p, a, b, c, d);
      }
    }
  }

  lemma Computes(p: int, a: int, b: int, c: int, d: int)
    requires p > 0 && a % p == b % p && c % p == d % p
    ensures (a + c) % p == (b + d) % p && (a - c) % p == (b - d) % p && (a * c) % p == (b * d) % p
  {
    var k, l := a / p - b / p, c / p - d / p;
    Apart(p, a, b);
    Apart(p, c, d);
    assert p * (k + l) == p * k + p * l && p * (k - l) == p * k - p * l;
    Together(p, a + c, b + d, k + l);
    Together(p, a - c, b - d, k - l);
    ProductApart(p, b, d, k, l);
    Together(p, a * c, b * d, k * d + b * l + p * k * l);
  }

  lemma Apart(p: int, a: int, b: int)
    requires p > 0 && a % p == b % p
    ensures a == b + p * (a / p - b / p)
  {
    QuotientRemainder(a, p);
    QuotientRemainder(b, p);
    assert p * (a / p - b / p) == p * (a / p) - p * (b / p);
  }

  lemma Together(p: int, a: int, b: int, k: int)
    requires p > 0 && a == b + p * k
    ensures a % p == b % p
  {
    QuotientRemainder(b, p);
    assert p * (b / p + k) == p * (b / p) + p * k;
    ModUnique(a, p, b / p + k, b % p);
  }

  lemma ProductApart(p: int, b: int, d: int, k: int, l: int)
    ensures (b + p * k) * (d + p * l) == b * d + p * (k * d + b * l + p * k * l)
  {
  }

  // ---- using the laws ------------------------------------------------------------------

  lemma Refl(m: Mod, a: int)
    requires Lawful(m)
    ensures m.same(a, a)
  {
    assert ReflectsAt(m, a, a);
  }

  lemma Sym(m: Mod, a: int, b: int)
    requires Lawful(m) && m.same(a, b)
    ensures m.same(b, a)
  {
    assert ReflectsAt(m, a, b);
  }

  lemma Trans(m: Mod, a: int, b: int, c: int)
    requires Lawful(m) && m.same(a, b) && m.same(b, c)
    ensures m.same(a, c)
  {
    assert ChainsAt(m, a, b, c);
  }

  lemma Sums(m: Mod, a: int, b: int, c: int, d: int)
    requires Lawful(m) && m.same(a, b) && m.same(c, d)
    ensures m.same(a + c, b + d)
  {
    assert ComputesAt(m, a, b, c, d);
  }

  lemma Differences(m: Mod, a: int, b: int, c: int, d: int)
    requires Lawful(m) && m.same(a, b) && m.same(c, d)
    ensures m.same(a - c, b - d)
  {
    assert ComputesAt(m, a, b, c, d);
  }

  lemma Products(m: Mod, a: int, b: int, c: int, d: int)
    requires Lawful(m) && m.same(a, b) && m.same(c, d)
    ensures m.same(a * c, b * d)
  {
    assert ComputesAt(m, a, b, c, d);
  }

  /** Factors that are not zero have a product that is not. */
  lemma NotZero(m: Mod, a: int, b: int)
    requires Prime(m) && !m.same(a, 0) && !m.same(b, 0)
    ensures !m.same(a * b, 0)
  {
    assert NoDivisorsAt(m, a, b);
  }

  /** A factor that is not zero cancels. */
  lemma Cancels(m: Mod, a: int, b: int, c: int)
    requires Prime(m) && !m.same(c, 0)
    ensures m.same(a * c, b * c) <==> m.same(a, b)
  {
    Refl(m, c);
    if m.same(a, b) {
      Products(m, a, b, c, c);
    }
    if m.same(a * c, b * c) {
      Refl(m, b * c);
      Differences(m, a * c, b * c, b * c, b * c);
      assert (a - b) * c == a * c - b * c;
      assert NoDivisorsAt(m, a - b, c);
      Refl(m, b);
      Sums(m, a - b, 0, b, b);
    }
  }

  /** Reducing modulo p is not seen. */
  ghost predicate ReducesAt(m: Mod, p: int, a: int)
    requires p > 0
  {
    m.same(a % p, a)
  }

  ghost predicate Reduces(m: Mod, p: int)
  {
    Lawful(m) && p > 0 && forall a :: ReducesAt(m, p, a)
  }

  lemma ModuloReduces(p: int)
    requires p > 0
    ensures Reduces(Modulo(p), p)
  {
    ModuloLawful(p);
    forall a ensures ReducesAt(Modulo(p), p, a) {
      ModUnique(a % p, p, 0, a % p);
    }
  }

  lemma ReducedTo(m: Mod, p: int, a: int, x: int)
    requires Reduces(m, p) && m.same(a, x)
    ensures m.same(a % p, x)
  {
    assert ReducesAt(m, p, a);
    Trans(m, a % p, a, x);
  }

  lemma ReducedSum(m: Mod, p: int, a: int, x: int, b: int, y: int)
    requires Reduces(m, p) && m.same(a, x) && m.same(b, y)
    ensures m.same((a + b) % p, x + y) && m.same((a - b) % p, x - y)
  {
    Sums(m, a, x, b, y);
    Differences(m, a, x, b, y);
    ReducedTo(m, p, a + b, x + y);
    ReducedTo(m, p, a - b, x - y);
  }

  lemma ReducedProduct(m: Mod, p: int, a: int, x: int, b: int, y: int)
    requires Reduces(m, p) && m.same(a, x) && m.same(b, y)
    ensures m.same((a * b) % p, x * y)
  {
    Products(m, a, x, b, y);
    ReducedTo(m, p, a * b, x * y);
  }
}
