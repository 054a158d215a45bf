/** The ladder step of x25519.rs against the affine u-coordinate laws of the curve
    v^2 = u^3 + 486662 u^2 + u (section 4.1 of RFC 7748): doubling, and adding two points
    whose difference is known. */
module Montgomery {
  import opened Congruence
  import opened Field25519
  import opened X25519

  const A := 486_662

  /** A ratio stands for u at scale n. */
  ghost predicate Stands(m: Mod, s: Ratio, u: int, n: int)
  {
    m.same(s.x, u * n) && m.same(s.z, n)
  }

  /** What the doubling formula divides by. */
  function DoubleBelow(u: int): int
  {
    4 * u * (u * u + A * u + 1)
  }

  /** v is the u-coordinate of twice the point over u. */
  ghost predicate IsDouble(m: Mod, u: int, v: int)
  {
    m.same(v * DoubleBelow(u), (u * u - 1) * (u * u - 1))
  }

  /** v is the u-coordinate of the sum of points over s and t whose difference is over x1. */
  ghost predicate IsSum(m: Mod, x1: int, s: int, t: int, v: int)
  {
    m.same(v * (x1 * ((s - t) * (s - t))), (s * t - 1) * (s * t - 1))
  }

  /** The squares the doubling starts from, over u at scale n. */
  lemma SquaresAre(m: Mod, s: Ratio, u: int, n: int)
    requires Reduces(m, P) && Stands(m, s, u, n)
    ensures m.same(Square((s.x + s.z) % P), (u + 1) * (u + 1) * (n * n))
    ensures m.same(Square((s.x - s.z) % P), (u - 1) * (u - 1) * (n * n))
  {
    ReducedSum(m, P, s.x, u * n, s.z, n);
    ReducedProduct(m, P, (s.x + s.z) % P, u * n + n, (s.x + s.z) % P, u * n + n);
    ReducedProduct(m, P, (s.x - s.z) % P, u * n - n, (s.x - s.z) % P, u * n - n);
    Squares(u, n);
  }

  lemma Parts(u: int, nn: int)
    ensures (u + 1) * (u + 1) * nn - (u - 1) * (u - 1) * nn == 4 * u * nn
    ensures ((u + 1) * (u + 1)) * ((u - 1) * (u - 1)) == (u * u - 1) * (u * u - 1)
  {
    assert (u + 1) * (u + 1) - (u - 1) * (u - 1) == 4 * u;
    assert (u + 1) * (u + 1) * nn - (u - 1) * (u - 1) * nn == ((u + 1) * (u + 1) - (u - 1) * (u - 1)) * nn;
    assert (u + 1) * (u - 1) == u * u - 1;
    assert ((u + 1) * (u + 1)) * ((u - 1) * (u - 1)) == ((u + 1) * (u - 1)) * ((u + 1) * (u - 1));
  }

  lemma DoubleOfIs(m: Mod, aa: nat, bb: nat, u: int, nn: int)
    requires Reduces(m, P) && m.same(aa, (u + 1) * (u + 1) * nn) && m.same(bb, (u - 1) * (u - 1) * nn)
    ensures m.same(DoubleOf(aa, bb, (aa - bb) % P).x, (u * u - 1) * (u * u - 1) * (nn * nn))
    ensures m.same(DoubleOf(aa, bb, (aa - bb) % P).z, DoubleBelow(u) * (nn * nn))
  {
    var e := (aa - bb) % P;
    Parts(u, nn);
    ReducedSum(m, P, aa, (u + 1) * (u + 1) * nn, bb, (u - 1) * (u - 1) * nn);
    Refl(m, A24);
    ReducedProduct(m, P, A24, A24, e, 4 * u * nn);
    ReducedSum(m, P, aa, (u + 1) * (u + 1) * nn, Times(A24, e), A24 * (4 * u * nn));
    Below(u, nn);
    ReducedProduct(m, P, e, 4 * u * nn, (aa + Times(A24, e)) % P, (u * u + A * u + 1) * nn);
    Pull(4 * u, u * u + A * u + 1, nn);
    ReducedProduct(m, P, aa, (u + 1) * (u + 1) * nn, bb, (u - 1) * (u - 1) * nn);
    Pull((u + 1) * (u + 1), (u - 1) * (u - 1), nn);
  }

  /** The doubling formula over u at scale n: numerator and denominator of the affine double. */
  lemma DoubledIs(m: Mod, s: Ratio, u: int, n: int)
    requires Reduces(m, P) && Stands(m, s, u, n)
    ensures m.same(Doubled(s).x, (u * u - 1) * (u * u - 1) * (n * n * (n * n)))
    ensures m.same(Doubled(s).z, DoubleBelow(u) * (n * n * (n * n)))
  {
    SquaresAre(m, s, u, n);
    DoubleOfIs(m, Square((s.x + s.z) % P), Square((s.x - s.z) % P), u, n * n);
  }

  lemma DoubledIsDouble(m: Mod, s: Ratio, u: int, n: int, v: int)
    requires Reduces(m, P) && Stands(m, s, u, n) && IsDouble(m, u, v)
    ensures Stands(m, Doubled(s), v, DoubleBelow(u) * (n * n * (n * n)))
  {
    DoubledIs(m, s, u, n);
    Lifted(m, Doubled(s).x, (u * u - 1) * (u * u - 1), v, DoubleBelow(u), n * n * (n * n));
  }

  lemma Squares(u: int, n: int)
    ensures (u * n + n) * (u * n + n) == (u + 1) * (u + 1) * (n * n)
    ensures (u * n - n) * (u * n - n) == (u - 1) * (u - 1) * (n * n)
  {
    Pull2(u + 1, n);
    Pull2(u - 1, n);
  }

  lemma Pull2(a: int, n: int)
    ensures (a * n) * (a * n) == a * a * (n * n)
  {
  }

  lemma Below(u: int, nn: int)
    ensures (u + 1) * (u + 1) * nn + A24 * (4 * u * nn) == (u * u + A * u + 1) * nn
  {
    var k := u * nn;
    assert (u + 1) * (u + 1) * nn == (u * u + 2 * u + 1) * nn == u * u * nn + 2 * k + nn;
    assert (u * u + A * u + 1) * nn == u * u * nn + A * k + nn;
    assert 4 * u * nn == 4 * k;
  }

  lemma Pull(a: int, b: int, n: int)
    ensures (a * n) * (b * n) == a * b * (n * n)
  {
  }

  lemma Lifted(m: Mod, e: int, top: int, v: int, bottom: int, k: int)
    requires Lawful(m) && m.same(e, top * k) && m.same(v * bottom, top)
    ensures m.same(e, v * (bottom * k))
  {
    Refl(m, k);
    Sym(m, v * bottom, top);
    Products(m, top, v * bottom, k, k);
    Trans(m, e, top * k, v * bottom * k);
    assert v * bottom * k == v * (bottom * k);
  }

  /** The sum formula over us and ut: numerator and denominator of the affine sum. */
  lemma SummedIs(m: Mod, x1: nat, s: Ratio, us: int, n: int, t: Ratio, ut: int, k: int)
    requires Reduces(m, P) && Stands(m, s, us, n) && Stands(m, t, ut, k)
    ensures m.same(Summed(x1, s, t).x, (us * ut - 1) * (us * ut - 1) * (4 * (n * k * (n * k))))
    ensures m.same(Summed(x1, s, t).z, x1 * ((us - ut) * (us - ut)) * (4 * (n * k * (n * k))))
  {
    var w := n * k;
    var da := Times((t.x - t.z) % P, (s.x + s.z) % P);
    var cb := Times((t.x + t.z) % P, (s.x - s.z) % P);
    ReducedSum(m, P, s.x, us * n, s.z, n);
    ReducedSum(m, P, t.x, ut * k, t.z, k);
    ReducedProduct(m, P, (t.x - t.z) % P, ut * k - k, (s.x + s.z) % P, us * n + n);
    ReducedProduct(m, P, (t.x + t.z) % P, ut * k + k, (s.x - s.z) % P, us * n - n);
    CrossTerms(us, n, ut, k);
    ReducedSum(m, P, da, (ut - 1) * (us + 1) * w, cb, (ut + 1) * (us - 1) * w);
    SumAndDifference(us, ut, w);
    var plus, minus := (da + cb) % P, (da - cb) % P;
    ReducedProduct(m, P, plus, (us * ut - 1) * (2 * w), plus, (us * ut - 1) * (2 * w));
    ReducedProduct(m, P, minus, (ut - us) * (2 * w), minus, (ut - us) * (2 * w));
    Pull2(us * ut - 1, 2 * w);
    Pull2(ut - us, 2 * w);
    var ww := 4 * (w * w);
    assert (2 * w) * (2 * w) == ww;
    assert (ut - us) * (ut - us) == (us - ut) * (us - ut);
    Refl(m, x1);
    ReducedProduct(m, P, x1, x1, Square(minus), (us - ut) * (us - ut) * ww);
    Regroup(x1, (us - ut) * (us - ut), ww);
  }

  lemma SummedIsSum(m: Mod, x1: nat, s: Ratio, us: int, n: int, t: Ratio, ut: int, k: int, v: int)
    requires Reduces(m, P) && Stands(m, s, us, n) && Stands(m, t, ut, k) && IsSum(m, x1, us, ut, v)
    ensures Stands(m, Summed(x1, s, t), v, x1 * ((us - ut) * (us - ut)) * (4 * (n * k * (n * k))))
  {
    SummedIs(m, x1, s, us, n, t, ut, k);
    Lifted(m, Summed(x1, s, t).x, (us * ut - 1) * (us * ut - 1), v, x1 * ((us - ut) * (us - ut)), 4 * (n * k * (n * k)));
  }

  lemma Regroup(a: int, b: int, c: int)
    ensures a * (b * c) == a * b * c
  {
  }

  lemma CrossTerms(us: int, n: int, ut: int, k: int)
    ensures (ut * k - k) * (us * n + n) == (ut - 1) * (us + 1) * (n * k)
    ensures (ut * k + k) * (us * n - n) == (ut + 1) * (us - 1) * (n * k)
  {
    Shared(ut - 1, k, us + 1, n);
    Shared(ut + 1, k, us - 1, n);
  }

  lemma Shared(a: int, k: int, b: int, n: int)
    ensures (a * k) * (b * n) == a * b * (n * k)
  {
  }

  lemma SumAndDifference(us: int, ut: int, w: int)
    ensures (ut - 1) * (us + 1) * w + (ut + 1) * (us - 1) * w == (us * ut - 1) * (2 * w)
    ensures (ut - 1) * (us + 1) * w - (ut + 1) * (us - 1) * w == (ut - us) * (2 * w)
  {
    var a, b := (ut - 1) * (us + 1), (ut + 1) * (us - 1);
    assert a + b == 2 * (us * ut - 1) && a - b == 2 * (ut - us);
    assert a * w + b * w == (a + b) * w && a * w - b * w == (a - b) * w;
  }
}
