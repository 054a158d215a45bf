/** The ladder's laws (x25519.rs) from the affine laws of the curve's group, for every point:
    at infinity, at points of small order, and at u = 0. */
module MontgomeryGroup {
  import opened Congruence
  import opened Field25519
  import opened X25519
  import opened Montgomery
  import Fermat
  import Inverses
  import Monoid
  import Words

  // ---- zero and not zero ------------------------------------------------------------------

  lemma ZeroTimes(m: Mod, a: int, b: int)
    requires Lawful(m) && (m.same(a, 0) || m.same(b, 0))
    ensures m.same(a * b, 0)
  {
    Refl(m, a);
    Refl(m, b);
    if m.same(a, 0) { Products(m, a, 0, b, b); } else { Products(m, a, a, b, 0); }
  }

  /** What a number is the same as is zero exactly when it is. */
  lemma ZeroAlike(m: Mod, a: int, b: int)
    requires Lawful(m) && m.same(a, b)
    ensures m.same(a, 0) <==> m.same(b, 0)
  {
    Sym(m, a, b);
    if m.same(b, 0) { Trans(m, a, b, 0); }
    if m.same(a, 0) { Trans(m, b, a, 0); }
  }

  lemma ZeroProduct(m: Mod, a: int, b: int)
    requires Prime(m)
    ensures m.same(a * b, 0) <==> m.same(a, 0) || m.same(b, 0)
  {
    if m.same(a, 0) || m.same(b, 0) { ZeroTimes(m, a, b); }
    assert NoDivisorsAt(m, a, b);
  }

  lemma Less(m: Mod, a: int, b: int)
    requires Lawful(m)
    ensures m.same(a - b, 0) <==> m.same(a, b)
  {
    Refl(m, b);
    if m.same(a, b) { Differences(m, a, b, b, b); }
    if m.same(a - b, 0) { Sums(m, a - b, 0, b, b); }
  }

  // ---- the curve ----------------------------------------------------------------------------

  /** A prime modulus that tells 2 from 0 and A from 2 and -2. */
  ghost predicate Suits(m: Mod)
  {
    Prime(m) && Reduces(m, P) && !m.same(1, 0) && !m.same(2, 0) && !m.same(A + 2, 0) && !m.same(2 - A, 0)
  }

  /** The doubling formula is never 0 over 0. */
  lemma TopStays(m: Mod, u: int)
    requires Suits(m) && m.same(DoubleBelow(u), 0)
    ensures !m.same((u * u - 1) * (u * u - 1), 0)
  {
    var q := u * u + A * u + 1;
    assert 4 == 2 * 2 && DoubleBelow(u) == (4 * u) * q && u * u - 1 == (u - 1) * (u + 1);
    ZeroProduct(m, 2, 2);
    ZeroProduct(m, 4, u);
    ZeroProduct(m, 4 * u, q);
    ZeroProduct(m, u * u - 1, u * u - 1);
    ZeroProduct(m, u - 1, u + 1);
    Less(m, u, 1);
    Less(m, u, -1);
    assert u - (-1) == u + 1;
    if m.same(u, 1) { AtUnit(m, u, 1); }
    if m.same(u, -1) { AtUnit(m, u, -1); }
  }

  lemma AtUnit(m: Mod, u: int, e: int)
    requires Suits(m) && m.same(u, e) && (e == 1 || e == -1)
    ensures !m.same(u, 0) && !m.same(u * u + A * u + 1, 0)
  {
    ZeroAlike(m, u, e);
    Refl(m, 0);
    if m.same(-1, 0) { Differences(m, 0, 0, -1, 0); }
    Refl(m, A);
    Refl(m, 1);
    Products(m, u, e, u, e);
    Products(m, A, A, u, e);
    Sums(m, u * u, e * e, A * u, A * e);
    Sums(m, u * u + A * u, e * e + A * e, 1, 1);
    ZeroAlike(m, u * u + A * u + 1, e * e + A * e + 1);
  }

  /** Which elements have a u-coordinate, and what it is. */
  datatype Points<!G> = Points(finite: G -> bool, over: G -> int)

  ghost predicate NeutralAt<G(!new)>(c: Curve<G>, k: Points<G>, g: G)
  {
    (k.finite(g) <==> g != c.group.unit) && c.group.apply(g, c.group.unit) == g == c.group.apply(c.group.unit, g)
  }

  ghost predicate DoubleAt<G(!new)>(c: Curve<G>, m: Mod, k: Points<G>, g: G)
  {
    var d := c.group.apply(g, g);
    k.finite(g) ==>
      (k.finite(d) <==> !m.same(DoubleBelow(k.over(g)), 0)) && (k.finite(d) ==> IsDouble(m, k.over(g), k.over(d)))
  }

  ghost predicate SumAt<G(!new)>(c: Curve<G>, m: Mod, k: Points<G>, point: G, g: G, h: G)
  {
    var d := c.group.apply(g, h);
    k.finite(g) && k.finite(h) && Neighbours(c, point, g, h) ==>
      && (k.finite(d) <==> !m.same(k.over(g), k.over(h)))
      && (k.finite(d) ==> IsSum(m, k.over(point), k.over(g), k.over(h), k.over(d)))
  }

  ghost predicate OppositeAt<G(!new)>(c: Curve<G>, m: Mod, k: Points<G>, g: G, h: G)
  {
    c.group.apply(g, h) == c.group.unit && k.finite(g) ==> k.finite(h) && m.same(k.over(g), k.over(h))
  }

  /** A commutative group whose finite elements double and add by the affine laws of the curve
      in u alone, opposite elements having one u. */
  ghost predicate ByAffineLaws<G(!new)>(c: Curve<G>, m: Mod, k: Points<G>, point: G)
  {
    && Monoid.Laws(c.group) && k.finite(point)
    && (forall g, h :: Monoid.Commutes(c.group, g, h))
    && (forall g :: NeutralAt(c, k, g))
    && (forall g :: DoubleAt(c, m, k, g))
    && (forall g, h :: SumAt(c, m, k, point, g, h))
    && (forall g, h :: OppositeAt(c, m, k, g, h))
  }

  ghost predicate Scaled(m: Mod, s: Ratio, u: int, n: int)
  {
    Stands(m, s, u, n) && !m.same(n, 0)
  }

  /** The ratio of an element: u : 1 at some scale, or 1 : 0 at infinity.  Over u = 0 the
      ladder keeps only that one of the two is zero. */
  ghost predicate Over<G(!new)>(c: Curve<G>, m: Mod, k: Points<G>, point: G, s: Ratio, g: G)
  {
    if m.same(k.over(point), 0) then (g == c.group.unit || g == point) && m.same(s.x * s.z, 0)
    else if k.finite(g) then exists n :: Scaled(m, s, k.over(g), n)
    else m.same(s.z, 0) && !m.same(s.x, 0)
  }

  ghost predicate OverAt<G(!new)>(c: Curve<G>, m: Mod, k: Points<G>, point: G, s: Ratio, g: G)
  {
    c.stands(s, g) <==> Over(c, m, k, point, s, g)
  }

  // ---- doubling -------------------------------------------------------------------------------

  lemma DoubleNumbers(m: Mod, s: Ratio, u: int, n: int)
    requires Suits(m) && Scaled(m, s, u, n)
    ensures m.same(Doubled(s).z, 0) <==> m.same(DoubleBelow(u), 0)
    ensures m.same(DoubleBelow(u), 0) ==> !m.same(Doubled(s).x, 0)
    ensures !m.same(n * n * (n * n), 0)
  {
    var w := n * n * (n * n);
    DoubledIs(m, s, u, n);
    ZeroProduct(m, n, n);
    ZeroProduct(m, n * n, n * n);
    ZeroAlike(m, Doubled(s).z, DoubleBelow(u) * w);
    ZeroProduct(m, DoubleBelow(u), w);
    ZeroAlike(m, Doubled(s).x, (u * u - 1) * (u * u - 1) * w);
    ZeroProduct(m, (u * u - 1) * (u * u - 1), w);
    if m.same(DoubleBelow(u), 0) { TopStays(m, u); }
  }

  lemma DoubleFinite<G(!new)>(c: Curve<G>, m: Mod, k: Points<G>, point: G, s: Ratio, g: G)
    requires Suits(m) && ByAffineLaws(c, m, k, point) && !m.same(k.over(point), 0) && k.finite(g) && Over(c, m, k, point, s, g)
    ensures Over(c, m, k, point, Doubled(s), c.group.apply(g, g))
  {
    var n :| Scaled(m, s, k.over(g), n);
    var d := c.group.apply(g, g);
    assert DoubleAt(c, m, k, g);
    DoubleNumbers(m, s, k.over(g), n);
    if k.finite(d) {
      DoubledIsDouble(m, s, k.over(g), n, k.over(d));
      NotZero(m, DoubleBelow(k.over(g)), n * n * (n * n));
      assert Scaled(m, Doubled(s), k.over(d), DoubleBelow(k.over(g)) * (n * n * (n * n)));
    }
  }

  /** (x + z)^2 and (x - z)^2 when z is 0. */
  lemma SquaresAtInfinity(m: Mod, s: Ratio)
    requires Suits(m) && m.same(s.z, 0)
    ensures m.same(Square((s.x + s.z) % P), s.x * s.x) && m.same(Square((s.x - s.z) % P), s.x * s.x)
  {
    Refl(m, s.x);
    ReducedSum(m, P, s.x, s.x, s.z, 0);
    ReducedProduct(m, P, (s.x + s.z) % P, s.x, (s.x + s.z) % P, s.x);
    ReducedProduct(m, P, (s.x - s.z) % P, s.x, (s.x - s.z) % P, s.x);
  }

  lemma DoubleInfinite(m: Mod, s: Ratio)
    requires Suits(m) && m.same(s.z, 0) && !m.same(s.x, 0)
    ensures m.same(Doubled(s).z, 0) && !m.same(Doubled(s).x, 0)
  {
    var aa, bb := Square((s.x + s.z) % P), Square((s.x - s.z) % P);
    var e := (aa - bb) % P;
    SquaresAtInfinity(m, s);
    ReducedSum(m, P, aa, s.x * s.x, bb, s.x * s.x);
    Refl(m, (aa + Times(A24, e)) % P);
    ReducedProduct(m, P, e, 0, (aa + Times(A24, e)) % P, (aa + Times(A24, e)) % P);
    ReducedProduct(m, P, aa, s.x * s.x, bb, s.x * s.x);
    ZeroProduct(m, s.x, s.x);
    ZeroProduct(m, s.x * s.x, s.x * s.x);
    ZeroAlike(m, Times(aa, bb), (s.x * s.x) * (s.x * s.x));
  }

  // ---- adding ---------------------------------------------------------------------------------

  lemma SumNumbers(m: Mod, x1: nat, s: Ratio, us: int, n: int, t: Ratio, ut: int, l: int)
    requires Suits(m) && Scaled(m, s, us, n) && Scaled(m, t, ut, l) && !m.same(x1, 0)
    ensures m.same(Summed(x1, s, t).z, 0) <==> m.same(us, ut)
    ensures !m.same(us * ut - 1, 0) ==> !m.same(Summed(x1, s, t).x, 0)
    ensures !m.same(us, ut) ==> !m.same(x1 * ((us - ut) * (us - ut)) * (4 * (n * l * (n * l))), 0)
  {
    var w := 4 * (n * l * (n * l));
    var d, top := (us - ut) * (us - ut), (us * ut - 1) * (us * ut - 1);
    SummedIs(m, x1, s, us, n, t, ut, l);
    ZeroProduct(m, n, l);
    ZeroProduct(m, n * l, n * l);
    assert 4 == 2 * 2;
    ZeroProduct(m, 2, 2);
    ZeroProduct(m, 4, n * l * (n * l));
    Less(m, us, ut);
    ZeroProduct(m, us - ut, us - ut);
    ZeroProduct(m, x1, d);
    ZeroProduct(m, x1 * d, w);
    ZeroAlike(m, Summed(x1, s, t).z, x1 * d * w);
    ZeroProduct(m, us * ut - 1, us * ut - 1);
    ZeroProduct(m, top, w);
    ZeroAlike(m, Summed(x1, s, t).x, top * w);
  }

  /** Two elements that cancel and differ by the point are halves of it, up to sign, so
      neither has u = 1 or u = -1: the point would have u = 0. */
  lemma HalvesApart<G(!new)>(c: Curve<G>, m: Mod, k: Points<G>, point: G, g: G, h: G)
    requires Suits(m) && ByAffineLaws(c, m, k, point) && !m.same(k.over(point), 0)
    requires k.finite(g) && h == c.group.apply(point, g) && c.group.apply(g, h) == c.group.unit
    ensures !m.same((k.over(g) * k.over(g) - 1) * (k.over(g) * k.over(g) - 1), 0)
  {
    var d, u := c.group.apply(g, g), k.over(g);
    assert Monoid.Commutes(c.group, g, h) && Monoid.Associates(c.group, point, g, g);
    assert c.group.apply(point, d) == c.group.unit;
    assert NeutralAt(c, k, point) && NeutralAt(c, k, d) && OppositeAt(c, m, k, point, d) && DoubleAt(c, m, k, g);
    if m.same((u * u - 1) * (u * u - 1), 0) {
      ZeroAlike(m, k.over(d) * DoubleBelow(u), (u * u - 1) * (u * u - 1));
      ZeroProduct(m, k.over(d), DoubleBelow(u));
      ZeroAlike(m, k.over(point), k.over(d));
    }
  }

  lemma SumTop<G(!new)>(c: Curve<G>, m: Mod, k: Points<G>, point: G, g: G, h: G)
    requires Suits(m) && ByAffineLaws(c, m, k, point) && !m.same(k.over(point), 0) && Neighbours(c, point, g, h)
    requires k.finite(g) && k.finite(h) && m.same(k.over(g), k.over(h)) && c.group.apply(g, h) == c.group.unit
    ensures !m.same(k.over(g) * k.over(h) - 1, 0)
  {
    var u, v := k.over(g), k.over(h);
    Refl(m, u);
    Refl(m, v);
    Refl(m, 1);
    Products(m, u, u, u, v);
    Products(m, u, v, v, v);
    Differences(m, u * u, u * v, 1, 1);
    Differences(m, u * v, v * v, 1, 1);
    ZeroAlike(m, u * u - 1, u * v - 1);
    ZeroAlike(m, u * v - 1, v * v - 1);
    ZeroProduct(m, u * u - 1, u * u - 1);
    ZeroProduct(m, v * v - 1, v * v - 1);
    if h == c.group.apply(point, g) {
      HalvesApart(c, m, k, point, g, h);
    } else {
      assert Monoid.Commutes(c.group, g, h);
      HalvesApart(c, m, k, point, h, g);
    }
  }

  lemma SumFinite<G(!new)>(c: Curve<G>, m: Mod, k: Points<G>, point: G, x1: nat, s: Ratio, t: Ratio, g: G, h: G)
    requires Suits(m) && ByAffineLaws(c, m, k, point) && x1 == k.over(point) && !m.same(x1, 0) && Neighbours(c, point, g, h)
    requires k.finite(g) && k.finite(h) && Over(c, m, k, point, s, g) && Over(c, m, k, point, t, h)
    ensures Over(c, m, k, point, Summed(x1, s, t), c.group.apply(g, h))
  {
    var n :| Scaled(m, s, k.over(g), n);
    var l :| Scaled(m, t, k.over(h), l);
    var d, us, ut := c.group.apply(g, h), k.over(g), k.over(h);
    assert SumAt(c, m, k, point, g, h) && NeutralAt(c, k, d);
    SumNumbers(m, x1, s, us, n, t, ut, l);
    if k.finite(d) {
      SummedIsSum(m, x1, s, us, n, t, ut, l, k.over(d));
      assert Scaled(m, Summed(x1, s, t), k.over(d), x1 * ((us - ut) * (us - ut)) * (4 * (n * l * (n * l))));
    } else {
      SumTop(c, m, k, point, g, h);
    }
  }

  lemma SumOfPlain(m: Mod, da: nat, cb: nat, u: int, v: int)
    requires Suits(m) && m.same(da, (u - 1) * v) && m.same(cb, (u + 1) * v)
    ensures m.same(Square((da + cb) % P), u * u * ((2 * v) * (2 * v)))
    ensures m.same(Square((da - cb) % P), 1 * ((2 * v) * (2 * v)))
  {
    ReducedSum(m, P, da, (u - 1) * v, cb, (u + 1) * v);
    Expand(u, v);
    ReducedProduct(m, P, (da + cb) % P, u * (2 * v), (da + cb) % P, u * (2 * v));
    ReducedProduct(m, P, (da - cb) % P, -(2 * v), (da - cb) % P, -(2 * v));
  }

  lemma Expand(u: int, v: int)
    ensures (u - 1) * v + (u + 1) * v == u * (2 * v) == (u + 1) * v + (u - 1) * v
    ensures (u - 1) * v - (u + 1) * v == -(2 * v) && (u + 1) * v - (u - 1) * v == 2 * v
    ensures (u * (2 * v)) * (u * (2 * v)) == u * u * ((2 * v) * (2 * v)) && -(2 * v) * -(2 * v) == 1 * ((2 * v) * (2 * v))
  {
  }

  /** u^2 w over x1 w is u, when u and x1 are the same. */
  lemma OverPoint(m: Mod, x1: nat, u: int, w: int, s: Ratio)
    requires Suits(m) && m.same(u, x1) && !m.same(x1, 0) && !m.same(w, 0)
    requires m.same(s.x, u * u * w) && m.same(s.z, x1 * w)
    ensures Scaled(m, s, u, x1 * w)
  {
    ZeroProduct(m, x1, w);
    Refl(m, u);
    Refl(m, w);
    Products(m, u, u, u, x1);
    Products(m, u * u, u * x1, w, w);
    assert u * x1 * w == u * (x1 * w);
    Trans(m, s.x, u * u * w, u * (x1 * w));
  }

  /** s at infinity, t over the point: their sum is over the point again. */
  lemma SumLeftInfinite(m: Mod, x1: nat, s: Ratio, t: Ratio, u: int, l: int)
    requires Suits(m) && m.same(s.z, 0) && !m.same(s.x, 0) && Scaled(m, t, u, l) && m.same(u, x1) && !m.same(x1, 0)
    ensures Scaled(m, Summed(x1, s, t), u, x1 * ((2 * (l * s.x)) * (2 * (l * s.x))))
  {
    var v := l * s.x;
    var da := Times((t.x - t.z) % P, (s.x + s.z) % P);
    var cb := Times((t.x + t.z) % P, (s.x - s.z) % P);
    Refl(m, s.x);
    ReducedSum(m, P, s.x, s.x, s.z, 0);
    ReducedSum(m, P, t.x, u * l, t.z, l);
    ReducedProduct(m, P, (t.x - t.z) % P, u * l - l, (s.x + s.z) % P, s.x);
    ReducedProduct(m, P, (t.x + t.z) % P, u * l + l, (s.x - s.z) % P, s.x);
    Factor(u, l, s.x);
    ZeroProduct(m, l, s.x);
    SumOfPlain(m, da, cb, u, v);
    Tail(m, x1, da, cb, u, v);
  }

  lemma Factor(u: int, l: int, x: int)
    ensures (u * l - l) * x == (u - 1) * (l * x) && (u * l + l) * x == (u + 1) * (l * x)
    ensures x * (u * l + l) == (u + 1) * (l * x) && x * (u * l - l) == (u - 1) * (l * x)
  {
    assert u * l - l == (u - 1) * l && u * l + l == (u + 1) * l;
  }

  lemma Tail(m: Mod, x1: nat, da: nat, cb: nat, u: int, v: int)
    requires Suits(m) && m.same(u, x1) && !m.same(x1, 0) && !m.same(v, 0)
    requires m.same(Square((da + cb) % P), u * u * ((2 * v) * (2 * v)))
    requires m.same(Square((da - cb) % P), 1 * ((2 * v) * (2 * v)))
    ensures Scaled(m, SumOf(x1, da, cb), u, x1 * ((2 * v) * (2 * v)))
  {
    var w := (2 * v) * (2 * v);
    Refl(m, x1);
    ReducedProduct(m, P, x1, x1, Square((da - cb) % P), w);
    ZeroProduct(m, 2, v);
    ZeroProduct(m, 2 * v, 2 * v);
    OverPoint(m, x1, u, w, SumOf(x1, da, cb));
  }

  /** And the other way round. */
  lemma SumRightInfinite(m: Mod, x1: nat, s: Ratio, t: Ratio, u: int, n: int)
    requires Suits(m) && m.same(t.z, 0) && !m.same(t.x, 0) && Scaled(m, s, u, n) && m.same(u, x1) && !m.same(x1, 0)
    ensures Scaled(m, Summed(x1, s, t), u, x1 * ((2 * (n * t.x)) * (2 * (n * t.x))))
  {
    var v := n * t.x;
    var da := Times((t.x - t.z) % P, (s.x + s.z) % P);
    var cb := Times((t.x + t.z) % P, (s.x - s.z) % P);
    Refl(m, t.x);
    ReducedSum(m, P, t.x, t.x, t.z, 0);
    ReducedSum(m, P, s.x, u * n, s.z, n);
    ReducedProduct(m, P, (t.x - t.z) % P, t.x, (s.x + s.z) % P, u * n + n);
    ReducedProduct(m, P, (t.x + t.z) % P, t.x, (s.x - s.z) % P, u * n - n);
    Factor(u, n, t.x);
    ZeroProduct(m, n, t.x);
    SumOfSwapped(m, da, cb, u, v);
    Tail(m, x1, da, cb, u, v);
  }

  lemma SumOfSwapped(m: Mod, da: nat, cb: nat, u: int, v: int)
    requires Suits(m) && m.same(da, (u + 1) * v) && m.same(cb, (u - 1) * v)
    ensures m.same(Square((da + cb) % P), u * u * ((2 * v) * (2 * v)))
    ensures m.same(Square((da - cb) % P), 1 * ((2 * v) * (2 * v)))
  {
    ReducedSum(m, P, da, (u + 1) * v, cb, (u - 1) * v);
    Expand(u, v);
    ReducedProduct(m, P, (da + cb) % P, u * (2 * v), (da + cb) % P, u * (2 * v));
    ReducedProduct(m, P, (da - cb) % P, 2 * v, (da - cb) % P, 2 * v);
  }

  // ---- the laws ---------------------------------------------------------------------------------

  lemma SumOver<G(!new)>(c: Curve<G>, m: Mod, k: Points<G>, point: G, x1: nat, s: Ratio, t: Ratio, g: G, h: G)
    requires Suits(m) && ByAffineLaws(c, m, k, point) && x1 == k.over(point) && !m.same(x1, 0) && Neighbours(c, point, g, h)
    requires Over(c, m, k, point, s, g) && Over(c, m, k, point, t, h)
    ensures Over(c, m, k, point, Summed(x1, s, t), c.group.apply(g, h))
  {
    assert NeutralAt(c, k, g) && NeutralAt(c, k, h) && NeutralAt(c, k, point);
    if k.finite(g) && k.finite(h) {
      SumFinite(c, m, k, point, x1, s, t, g, h);
    } else if k.finite(h) {
      OverPointAt(c, m, k, point, h, g);
      var l :| Scaled(m, t, k.over(h), l);
      SumLeftInfinite(m, x1, s, t, k.over(h), l);
      assert Scaled(m, Summed(x1, s, t), k.over(h), x1 * ((2 * (l * s.x)) * (2 * (l * s.x))));
    } else {
      OverPointAt(c, m, k, point, g, h);
      var n :| Scaled(m, s, k.over(g), n);
      SumRightInfinite(m, x1, s, t, k.over(g), n);
      assert Scaled(m, Summed(x1, s, t), k.over(g), x1 * ((2 * (n * t.x)) * (2 * (n * t.x))));
    }
  }

  /** The neighbour of the unit is the point or its opposite, and has its u. */
  lemma OverPointAt<G(!new)>(c: Curve<G>, m: Mod, k: Points<G>, point: G, g: G, h: G)
    requires Suits(m) && ByAffineLaws(c, m, k, point) && !k.finite(h)
    requires Neighbours(c, point, g, h) || Neighbours(c, point, h, g)
    ensures k.finite(g) && m.same(k.over(g), k.over(point))
  {
    assert NeutralAt(c, k, h) && NeutralAt(c, k, point) && NeutralAt(c, k, g);
    Refl(m, k.over(point));
    if c.group.apply(point, g) == h {
      assert OppositeAt(c, m, k, point, g);
      Sym(m, k.over(point), k.over(g));
    }
  }

  /** Over u = 0 the point is its own opposite. */
  lemma TwiceZero<G(!new)>(c: Curve<G>, m: Mod, k: Points<G>, point: G)
    requires Suits(m) && ByAffineLaws(c, m, k, point) && m.same(k.over(point), 0)
    ensures c.group.apply(point, point) == c.group.unit
  {
    var u, d := k.over(point), c.group.apply(point, point);
    assert DoubleAt(c, m, k, point) && NeutralAt(c, k, d);
    ZeroProduct(m, 4, u);
    ZeroProduct(m, 4 * u, u * u + A * u + 1);
  }

  lemma StepOverZero<G(!new)>(c: Curve<G>, m: Mod, k: Points<G>, point: G, x1: nat, s: Ratio, t: Ratio, g: G, h: G)
    requires Suits(m) && ByAffineLaws(c, m, k, point) && x1 == k.over(point) && m.same(x1, 0)
    requires Over(c, m, k, point, s, g) && Over(c, m, k, point, t, h)
    ensures Over(c, m, k, point, Doubled(s), c.group.apply(g, g)) && Over(c, m, k, point, Summed(x1, s, t), c.group.apply(g, h))
  {
    assert NeutralAt(c, k, c.group.unit) && NeutralAt(c, k, point);
    TwiceZero(c, m, k, point);
    DoubleOverZero(m, s);
    var minus := Square((Times((t.x - t.z) % P, (s.x + s.z) % P) - Times((t.x + t.z) % P, (s.x - s.z) % P)) % P);
    Refl(m, minus);
    ReducedProduct(m, P, x1, 0, minus, minus);
    ZeroTimes(m, Summed(x1, s, t).x, Summed(x1, s, t).z);
  }

  lemma DoubleOverZero(m: Mod, s: Ratio)
    requires Suits(m) && m.same(s.x * s.z, 0)
    ensures m.same(Doubled(s).x * Doubled(s).z, 0)
  {
    var aa, bb := Square((s.x + s.z) % P), Square((s.x - s.z) % P);
    var e := (aa - bb) % P;
    Refl(m, s.x);
    Refl(m, s.z);
    ReducedSum(m, P, s.x, s.x, s.z, s.z);
    ReducedProduct(m, P, (s.x + s.z) % P, s.x + s.z, (s.x + s.z) % P, s.x + s.z);
    ReducedProduct(m, P, (s.x - s.z) % P, s.x - s.z, (s.x - s.z) % P, s.x - s.z);
    ReducedSum(m, P, aa, (s.x + s.z) * (s.x + s.z), bb, (s.x - s.z) * (s.x - s.z));
    assert (s.x + s.z) * (s.x + s.z) - (s.x - s.z) * (s.x - s.z) == 4 * (s.x * s.z);
    ZeroTimes(m, 4, s.x * s.z);
    ZeroAlike(m, e, 4 * (s.x * s.z));
    Refl(m, (aa + Times(A24, e)) % P);
    ReducedProduct(m, P, e, 0, (aa + Times(A24, e)) % P, (aa + Times(A24, e)) % P);
    ZeroTimes(m, Doubled(s).x, Doubled(s).z);
  }

  lemma StepOver<G(!new)>(c: Curve<G>, m: Mod, k: Points<G>, point: G, x1: nat, s: Ratio, t: Ratio, g: G, h: G)
    requires Suits(m) && ByAffineLaws(c, m, k, point) && x1 == k.over(point)
    requires forall r, f :: OverAt(c, m, k, point, r, f)
    ensures StepLaw(c, point, x1, s, t, g, h)
  {
    if c.stands(s, g) && c.stands(t, h) && Neighbours(c, point, g, h) {
      assert OverAt(c, m, k, point, s, g) && OverAt(c, m, k, point, t, h);
      assert OverAt(c, m, k, point, Doubled(s), c.group.apply(g, g));
      assert OverAt(c, m, k, point, Summed(x1, s, t), c.group.apply(g, h));
      if m.same(x1, 0) {
        StepOverZero(c, m, k, point, x1, s, t, g, h);
      } else {
        SumOver(c, m, k, point, x1, s, t, g, h);
        assert NeutralAt(c, k, g);
        if k.finite(g) {
          DoubleFinite(c, m, k, point, s, g);
        } else {
          DoubleInfinite(m, s);
        }
      }
    }
  }

  /** The u an element encodes as: 0 at infinity. */
  ghost predicate EncodesAt<G(!new)>(c: Curve<G>, k: Points<G>, g: G)
  {
    c.u(g) == if k.finite(g) then k.over(g) % P else 0
  }

  /** x over z, through z^(p-2): the u at that scale, and 0 when either is 0. */
  lemma RatioIs(m: Mod, p: nat, s: Ratio, u: int, n: int)
    requires p == P && Suits(m) && Fermat.PrimeAt(m, p) && Scaled(m, s, u, n)
    ensures m.same(Times(s.x, Power(s.z, p - 2)), u)
  {
    var i := Power(s.z, p - 2);
    ZeroAlike(m, s.z, n);
    Inverses.PowerFollows(m, s.z, p - 2);
    Inverses.InverseBy(m, p, s.z, i);
    Refl(m, i);
    Refl(m, u);
    Sym(m, s.z, n);
    Products(m, n, s.z, i, i);
    Trans(m, n * i, s.z * i, 1);
    Products(m, u, u, n * i, 1);
    ReducedProduct(m, P, s.x, u * n, i, i);
    assert u * n * i == u * (n * i);
    Trans(m, Times(s.x, i), u * (n * i), u);
  }

  lemma RatioZero(m: Mod, p: nat, s: Ratio)
    requires p == P && Suits(m) && Fermat.PrimeAt(m, p) && m.same(s.x * s.z, 0)
    ensures m.same(Times(s.x, Power(s.z, p - 2)), 0)
  {
    var i := Power(s.z, p - 2);
    ZeroProduct(m, s.x, s.z);
    Inverses.PowerFollows(m, s.z, p - 2);
    if m.same(s.z, 0) {
      ZeroTimes(m, s.z, Fermat.Pow(s.z, p - 3));
      ZeroAlike(m, i, Fermat.Pow(s.z, p - 2));
    }
    ZeroTimes(m, s.x, i);
    ReducedTo(m, P, s.x * i, 0);
  }

  lemma AffineOver<G(!new)>(c: Curve<G>, k: Points<G>, p: nat, point: G, s: Ratio, g: G)
    requires p == P && Suits(Modulo(p)) && Prime(Modulo(p)) && ByAffineLaws(c, Modulo(p), k, point) && k.over(point) >= 0
    requires OverAt(c, Modulo(p), k, point, s, g) && EncodesAt(c, k, g)
    ensures c.stands(s, g) ==> Times(s.x, Power(s.z, p - 2)) == c.u(g)
  {
    var m := Modulo(p);
    Inverses.PrimeModulo(p);
    Words.ModUnique(0, p, 0, 0);
    var r := Times(s.x, Power(s.z, p - 2));
    Words.ModUnique(r, p, 0, r);
    if c.stands(s, g) {
      assert NeutralAt(c, k, g);
      if !m.same(k.over(point), 0) && k.finite(g) {
        var n :| Scaled(m, s, k.over(g), n);
        RatioIs(m, p, s, k.over(g), n);
      } else {
        AtInfinity(m, s);
        RatioZero(m, p, s);
      }
    }
  }

  lemma AtInfinity(m: Mod, s: Ratio)
    requires Lawful(m) && (m.same(s.z, 0) || m.same(s.x * s.z, 0))
    ensures m.same(s.x * s.z, 0)
  {
    if m.same(s.z, 0) { ZeroTimes(m, s.x, s.z); }
  }

  lemma SuitsModulo(p: nat)
    requires p == P && Prime(Modulo(p))
    ensures Suits(Modulo(p))
  {
    ModuloReduces(P);
    Words.ModUnique(0, p, 0, 0);
    Words.ModUnique(1, p, 0, 1);
    Words.ModUnique(2, p, 0, 2);
    Words.ModUnique(A + 2, p, 0, A + 2);
    Words.ModUnique(2 - A, p, -1, p + 2 - A);
  }

  /** Everything the ladder takes from the curve, for every point, from the affine laws of a
      commutative group and the primality of the modulus. */
  lemma LadderLawsHold<G(!new)>(c: Curve<G>, k: Points<G>, p: nat, point: G, x1: nat)
    requires p == P && Prime(Modulo(p)) && ByAffineLaws(c, Modulo(p), k, point) && x1 == k.over(point)
    requires (forall s, g :: OverAt(c, Modulo(p), k, point, s, g)) && (forall g :: EncodesAt(c, k, g))
    ensures LadderLaws(c, point, x1)
  {
    var m := Modulo(p);
    SuitsModulo(p);
    forall s, t, g, h ensures StepLaw(c, point, x1, s, t, g, h) { StepOver(c, m, k, point, x1, s, t, g, h); }
    forall s, g ensures AffineLaw(c, s, g) { AffineOver(c, k, p, point, s, g); }
    assert NeutralAt(c, k, c.group.unit) && NeutralAt(c, k, point);
    assert OverAt(c, m, k, point, Ratio(1, 0), c.group.unit) && OverAt(c, m, k, point, Ratio(x1, 1), point);
    Refl(m, 0);
    Refl(m, 1);
    Refl(m, x1);
    if !m.same(x1, 0) { assert Scaled(m, Ratio(x1, 1), x1, 1); }
    assert Monoid.Repeat(c.group, point, 1) == c.group.apply(point, Monoid.Repeat(c.group, point, 0)) == point;
  }
}
