/** Repeated application of an associative operation: powers modulo a number,
    multiples of a point. */
module Monoid {

  datatype Op<!T(!new)> = Op(unit: T, apply: (T, T) -> T)

  ghost predicate Associates<T(!new)>(m: Op<T>, x: T, y: T, z: T)
  {
    m.apply(m.apply(x, y), z) == m.apply(x, m.apply(y, z))
  }

  ghost predicate UnitKeeps<T(!new)>(m: Op<T>, x: T, y: T)
  {
    m.apply(m.unit, m.apply(x, y)) == m.apply(x, y) == m.apply(m.apply(x, y), m.unit)
  }

  /** Associative, with a unit for itself and for every product.  (The unit of
      multiplication modulo m is none for a factor that is not reduced.) */
  ghost predicate Laws<T(!new)>(m: Op<T>)
  {
    && (forall x, y, z :: Associates(m, x, y, z))
    && (forall x, y :: UnitKeeps(m, x, y))
    && m.apply(m.unit, m.unit) == m.unit
  }

  function Repeat<T(!new)>(m: Op<T>, x: T, n: nat): T
  {
    if n == 0 then m.unit else m.apply(x, Repeat(m, x, n - 1))
  }

  lemma UnitLeft<T(!new)>(m: Op<T>, x: T, n: nat)
    requires Laws(m)
    ensures m.apply(m.unit, Repeat(m, x, n)) == Repeat(m, x, n) == m.apply(Repeat(m, x, n), m.unit)
  {
    if n > 0 { assert UnitKeeps(m, x, Repeat(m, x, n - 1)); }
  }

  lemma {:induction false} RepeatAdd<T(!new)>(m: Op<T>, x: T, a: nat, b: nat)
    requires Laws(m)
    ensures m.apply(Repeat(m, x, a), Repeat(m, x, b)) == Repeat(m, x, a + b)
  {
    if a == 0 {
      UnitLeft(m, x, b);
    } else {
      RepeatAdd(m, x, a - 1, b);
      assert Associates(m, x, Repeat(m, x, a - 1), Repeat(m, x, b));
    }
  }

  lemma {:induction false} RepeatRepeat<T(!new)>(m: Op<T>, x: T, a: nat, b: nat)
    requires Laws(m)
    ensures Repeat(m, Repeat(m, x, a), b) == Repeat(m, x, a * b)
  {
    if b > 0 {
      RepeatRepeat(m, x, a, b - 1);
      RepeatAdd(m, x, a, a * (b - 1));
      assert a + a * (b - 1) == a * b;
    }
  }

  ghost predicate Commutes<T(!new)>(m: Op<T>, x: T, y: T)
  {
    m.apply(x, y) == m.apply(y, x)
  }

  /** A power moves past any element that commutes with its base. */
  lemma {:induction false} RepeatCommutes<T(!new)>(m: Op<T>, x: T, n: nat, y: T)
    requires Laws(m) && Commutes(m, x, y) && m.apply(m.unit, y) == m.apply(y, m.unit)
    ensures Commutes(m, Repeat(m, x, n), y)
  {
    if n > 0 {
      RepeatCommutes(m, x, n - 1, y);
      var p := Repeat(m, x, n - 1);
      assert Associates(m, x, p, y) && Associates(m, x, y, p) && Associates(m, y, x, p);
    }
  }

  /** Squaring then multiplying by the base when the bit is set. */
  lemma RepeatBit<T(!new)>(m: Op<T>, x: T, k: nat, bit: nat)
    requires Laws(m) && bit < 2
    ensures var square := m.apply(Repeat(m, x, k), Repeat(m, x, k));
            Repeat(m, x, 2 * k + bit) == if bit == 0 then square else m.apply(x, square)
  {
    RepeatAdd(m, x, k, k);
  }

  /** When the power after some period is the element again, powers repeat from then on. */
  lemma {:induction false} RepeatWraps<T(!new)>(m: Op<T>, x: T, period: nat, n: nat, k: nat)
    requires Laws(m) && n > 0 && Repeat(m, x, period + 1) == Repeat(m, x, 1)
    ensures Repeat(m, x, n + period * k) == Repeat(m, x, n)
  {
    if k > 0 {
      var before := n + period * (k - 1);
      RepeatWraps(m, x, period, n, k - 1);
      RepeatAdd(m, x, before - 1, period + 1);
      RepeatAdd(m, x, before - 1, 1);
      assert period * k == period * (k - 1) + period;
    }
  }
}
