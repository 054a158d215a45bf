/** The addition formula of ed25519.rs against the affine addition law of the twisted
    Edwards curve -x^2 + y^2 = 1 + d x^2 y^2 (section 5.1.4 of RFC 8032). */
module Edwards {
  import opened Congruence
  import opened Ed25519
  import opened Field25519

  /** Extended coordinates stand for (x, y) at scale n. */
  ghost predicate Stands(m: Mod, c: Coords, x: int, y: int, n: int)
  {
    m.same(c.x, x * n) && m.same(c.y, y * n) && m.same(c.z, n) && m.same(c.t, x * y * n)
  }

  /** (x3, y3) is the sum of two affine points: the law with its denominators multiplied out. */
  ghost predicate IsSum(m: Mod, d: int, x1: int, y1: int, x2: int, y2: int, x3: int, y3: int)
  {
    var k := d * ((x1 * y1) * (x2 * y2));
    m.same(x3 * (1 + k), x1 * y2 + y1 * x2) && m.same(y3 * (1 - k), y1 * y2 + x1 * x2)
  }

  /** The first four terms: (y1 - x1)(y2 - x2), (y1 + x1)(y2 + x2), 2 d t1 t2 and 2 z1 z2. */
  lemma TermsAre(m: Mod, d: int, d2: nat, p: Coords, x1: int, y1: int, n1: int, q: Coords, x2: int, y2: int, n2: int)
    requires Reduces(m, P) && m.same(d2, 2 * d) && Stands(m, p, x1, y1, n1) && Stands(m, q, x2, y2, n2)
    ensures var w := n1 * n2;
            && m.same(((p.y - p.x) % P * ((q.y - q.x) % P)) % P, (y1 - x1) * (y2 - x2) * w)
            && m.same(((p.y + p.x) % P * ((q.y + q.x) % P)) % P, (y1 + x1) * (y2 + x2) * w)
            && m.same(((p.t * d2) % P * q.t) % P, 2 * (d * ((x1 * y1) * (x2 * y2))) * w)
            && m.same(((p.z + p.z) % P * q.z) % P, 2 * w)
  {
    Sides(m, p.x, p.y, x1, y1, n1, q.x, q.y, x2, y2, n2);
    Cross(m, d, d2, p.t, x1 * y1, n1, q.t, x2 * y2, n2);
    ReducedSum(m, P, p.z, n1, p.z, n1);
    ReducedProduct(m, P, (p.z + p.z) % P, n1 + n1, q.z, n2);
    assert (n1 + n1) * n2 == 2 * (n1 * n2);
  }

  lemma Sides(m: Mod, px: nat, py: nat, x1: int, y1: int, n1: int, qx: nat, qy: nat, x2: int, y2: int, n2: int)
    requires Reduces(m, P) && m.same(px, x1 * n1) && m.same(py, y1 * n1) && m.same(qx, x2 * n2) && m.same(qy, y2 * n2)
    ensures m.same(((py - px) % P * ((qy - qx) % P)) % P, (y1 - x1) * (y2 - x2) * (n1 * n2))
    ensures m.same(((py + px) % P * ((qy + qx) % P)) % P, (y1 + x1) * (y2 + x2) * (n1 * n2))
  {
    ReducedSum(m, P, py, y1 * n1, px, x1 * n1);
    ReducedSum(m, P, qy, y2 * n2, qx, x2 * n2);
    Common(y1, x1, n1);
    Common(y2, x2, n2);
    ReducedProduct(m, P, (py - px) % P, (y1 - x1) * n1, (qy - qx) % P, (y2 - x2) * n2);
    ReducedProduct(m, P, (py + px) % P, (y1 + x1) * n1, (qy + qx) % P, (y2 + x2) * n2);
    Scaled(y1 - x1, n1, y2 - x2, n2);
    Scaled(y1 + x1, n1, y2 + x2, n2);
  }

  lemma Common(a: int, b: int, n: int)
    ensures a * n - b * n == (a - b) * n && a * n + b * n == (a + b) * n
  {
  }

  lemma Cross(m: Mod, d: int, d2: nat, pt: nat, a: int, n1: int, qt: nat, b: int, n2: int)
    requires Reduces(m, P) && m.same(d2, 2 * d) && m.same(pt, a * n1) && m.same(qt, b * n2)
    ensures m.same(((pt * d2) % P * qt) % P, 2 * (d * (a * b)) * (n1 * n2))
  {
    ReducedProduct(m, P, pt, a * n1, d2, 2 * d);
    ReducedProduct(m, P, (pt * d2) % P, a * n1 * (2 * d), qt, b * n2);
    TwoD(a, n1, d, b, n2);
  }

  lemma Scaled(a: int, n: int, b: int, k: int)
    ensures (a * n) * (b * k) == a * b * (n * k)
  {
  }

  lemma TwoD(a: int, n: int, d: int, b: int, k: int)
    ensures a * n * (2 * d) * (b * k) == 2 * (d * (a * b)) * (n * k)
  {
    Scaled(a, n, b, k);
    assert a * n * (2 * d) * (b * k) == 2 * d * ((a * n) * (b * k));
    assert 2 * d * (a * b * (n * k)) == 2 * (d * (a * b)) * (n * k);
  }

  /** Sums of coordinates stand for the sum of the points they stand for. */
  lemma AddIsSum(m: Mod, d: int, d2: nat, p: Coords, x1: int, y1: int, n1: int, q: Coords, x2: int, y2: int, n2: int,
                 x3: int, y3: int)
    requires Reduces(m, P) && m.same(d2, 2 * d) && Stands(m, p, x1, y1, n1) && Stands(m, q, x2, y2, n2)
    requires IsSum(m, d, x1, y1, x2, y2, x3, y3)
    ensures Stands(m, AddCoords(d2, p, q), x3, y3, Scale(n1 * n2, d * ((x1 * y1) * (x2 * y2))))
  {
    var w := n1 * n2;
    var k := d * ((x1 * y1) * (x2 * y2));
    var a, b := ((p.y - p.x) % P * ((q.y - q.x) % P)) % P, ((p.y + p.x) % P * ((q.y + q.x) % P)) % P;
    var c, e := ((p.t * d2) % P * q.t) % P, ((p.z + p.z) % P * q.z) % P;
    TermsAre(m, d, d2, p, x1, y1, n1, q, x2, y2, n2);
    CombineIs(m, a, b, c, e, x1, y1, x2, y2, w, k, x3, y3);
  }

  /** The scale of a sum, zero only where the law has no denominators. */
  function Scale(w: int, k: int): int
  {
    2 * w * (1 - k) * (2 * w * (1 + k))
  }

  lemma ScaleNotZero(m: Mod, n1: int, n2: int, k: int)
    requires Prime(m) && !m.same(2, 0) && !m.same(n1, 0) && !m.same(n2, 0) && !m.same(1 - k, 0) && !m.same(1 + k, 0)
    ensures !m.same(Scale(n1 * n2, k), 0)
  {
    var w := n1 * n2;
    NotZero(m, n1, n2);
    NotZero(m, 2, w);
    NotZero(m, 2 * w, 1 - k);
    NotZero(m, 2 * w, 1 + k);
    NotZero(m, 2 * w * (1 - k), 2 * w * (1 + k));
  }

  lemma CombineIs(m: Mod, a: nat, b: nat, c: nat, z: nat, x1: int, y1: int, x2: int, y2: int, w: int, k: int, x3: int, y3: int)
    requires Reduces(m, P)
    requires m.same(a, (y1 - x1) * (y2 - x2) * w) && m.same(b, (y1 + x1) * (y2 + x2) * w)
    requires m.same(c, 2 * k * w) && m.same(z, 2 * w)
    requires m.same(x3 * (1 + k), x1 * y2 + y1 * x2) && m.same(y3 * (1 - k), y1 * y2 + x1 * x2)
    ensures Stands(m, Combine(a, b, c, z), x3, y3, Scale(w, k))
  {
    var f', g' := 2 * w * (1 - k), 2 * w * (1 + k);
    var e, f, g, h := (b - a) % P, (z - c) % P, (z + c) % P, (b + a) % P;
    ReducedSum(m, P, b, (y1 + x1) * (y2 + x2) * w, a, (y1 - x1) * (y2 - x2) * w);
    ReducedSum(m, P, z, 2 * w, c, 2 * k * w);
    assert 2 * w - 2 * k * w == f' && 2 * w + 2 * k * w == g';
    Opened(x1, y1, x2, y2, w);
    Lifted(m, e, x1 * y2 + y1 * x2, x3, 1 + k, w);
    Lifted(m, h, y1 * y2 + x1 * x2, y3, 1 - k, w);
    assert m.same(e, x3 * g') && m.same(f, f') && m.same(g, g') && m.same(h, y3 * f');
    ReducedProduct(m, P, e, x3 * g', f, f');
    ReducedProduct(m, P, g, g', h, y3 * f');
    ReducedProduct(m, P, f, f', g, g');
    ReducedProduct(m, P, e, x3 * g', h, y3 * f');
    Last(x3, y3, f', g');
  }

  lemma Opened(x1: int, y1: int, x2: int, y2: int, w: int)
    ensures (y1 + x1) * (y2 + x2) * w - (y1 - x1) * (y2 - x2) * w == 2 * w * (x1 * y2 + y1 * x2)
    ensures (y1 + x1) * (y2 + x2) * w + (y1 - x1) * (y2 - x2) * w == 2 * w * (y1 * y2 + x1 * x2)
  {
    var s, t := (y1 + x1) * (y2 + x2), (y1 - x1) * (y2 - x2);
    assert s - t == 2 * (x1 * y2 + y1 * x2) && s + t == 2 * (y1 * y2 + x1 * x2);
    assert s * w - t * w == (s - t) * w && s * w + t * w == (s + t) * w;
  }

  lemma Lifted(m: Mod, e: int, top: int, x: int, bottom: int, w: int)
    requires Lawful(m) && m.same(e, 2 * w * top) && m.same(x * bottom, top)
    ensures m.same(e, x * (2 * w * bottom))
  {
    Refl(m, 2 * w);
    Sym(m, x * bottom, top);
    Products(m, 2 * w, 2 * w, top, x * bottom);
    Trans(m, e, 2 * w * top, 2 * w * (x * bottom));
    assert 2 * w * (x * bottom) == x * (2 * w * bottom);
  }

  lemma Last(x: int, y: int, f: int, g: int)
    ensures (x * g) * f == x * (f * g) && g * (y * f) == y * (f * g) && (x * g) * (y * f) == x * y * (f * g)
  {
  }

  // ---- the group law of the curve --------------------------------------------------------------------

  /** The affine points on a curve, and the group elements they are. */
  datatype Points<!G> = Points(on: (int, int) -> bool, element: (int, int) -> G)

  ghost predicate Standing<G>(m: Mod, k: Points<G>, a: Coords, x: int, y: int, n: int)
  {
    k.on(x, y) && Stands(m, a, x, y, n) && !m.same(n, 0)
  }

  ghost predicate OnAt<G(!new)>(c: Curve<G>, m: Mod, k: Points<G>, a: Coords)
  {
    c.onCurve(a) <==> exists x, y, n :: Standing(m, k, a, x, y, n)
  }

  ghost predicate DenotesAt<G(!new)>(c: Curve<G>, m: Mod, k: Points<G>, a: Coords, x: int, y: int, n: int)
  {
    Standing(m, k, a, x, y, n) ==> c.denote(a) == k.element(x, y)
  }

  /** (x, y) is the sum by the affine law, which has no zero denominator there. */
  ghost predicate SumWith<G(!new)>(c: Curve<G>, m: Mod, k: Points<G>, d: int, x1: int, y1: int, x2: int, y2: int, x: int, y: int)
  {
    var t := d * ((x1 * y1) * (x2 * y2));
    && IsSum(m, d, x1, y1, x2, y2, x, y) && !m.same(1 - t, 0) && !m.same(1 + t, 0)
    && k.on(x, y) && k.element(x, y) == c.group.apply(k.element(x1, y1), k.element(x2, y2))
  }

  ghost predicate SumsAt<G(!new)>(c: Curve<G>, m: Mod, k: Points<G>, d: int, x1: int, y1: int, x2: int, y2: int)
  {
    k.on(x1, y1) && k.on(x2, y2) ==> exists x, y :: SumWith(c, m, k, d, x1, y1, x2, y2, x, y)
  }

  /** The curve's group is its affine points under the complete addition law, and coordinates
      denote the points they stand for. */
  ghost predicate ByAffineLaw<G(!new)>(c: Curve<G>, m: Mod, k: Points<G>, d: int)
  {
    && m.same(Residue(c.d2), 2 * d)
    && (forall a :: OnAt(c, m, k, a))
    && (forall a, x, y, n :: DenotesAt(c, m, k, a, x, y, n))
    && (forall x1, y1, x2, y2 :: SumsAt(c, m, k, d, x1, y1, x2, y2))
  }

  lemma Denoted<G(!new)>(c: Curve<G>, m: Mod, k: Points<G>, d: int, a: Coords, x: int, y: int, n: int)
    requires ByAffineLaw(c, m, k, d) && Standing(m, k, a, x, y, n)
    ensures c.onCurve(a) && c.denote(a) == k.element(x, y)
  {
    assert OnAt(c, m, k, a) && DenotesAt(c, m, k, a, x, y, n);
  }

  /** What the scalar multiplication takes from the curve, its formula keeps: it is the group
      law when the affine law is. */
  lemma AddsHolds<G(!new)>(c: Curve<G>, m: Mod, k: Points<G>, d: int, p: Coords, q: Coords)
    requires Prime(m) && Reduces(m, P) && !m.same(2, 0) && ByAffineLaw(c, m, k, d)
    ensures Adds(c, p, q)
  {
    if c.onCurve(p) && c.onCurve(q) {
      assert OnAt(c, m, k, p) && OnAt(c, m, k, q);
      var x1, y1, n1 :| Standing(m, k, p, x1, y1, n1);
      var x2, y2, n2 :| Standing(m, k, q, x2, y2, n2);
      Denoted(c, m, k, d, p, x1, y1, n1);
      Denoted(c, m, k, d, q, x2, y2, n2);
      assert SumsAt(c, m, k, d, x1, y1, x2, y2);
      var x, y :| SumWith(c, m, k, d, x1, y1, x2, y2, x, y);
      var t := d * ((x1 * y1) * (x2 * y2));
      AddIsSum(m, d, Residue(c.d2), p, x1, y1, n1, q, x2, y2, n2, x, y);
      ScaleNotZero(m, n1, n2, t);
      Denoted(c, m, k, d, AddCoords(Residue(c.d2), p, q), x, y, Scale(n1 * n2, t));
    }
  }

  /** So modulo P, a prime, the formula is the law of any group the affine law makes. */
  lemma FormulaIsGroupLaw<G(!new)>(c: Curve<G>, k: Points<G>, d: int)
    requires Prime(Modulo(P)) && ByAffineLaw(c, Modulo(P), k, d)
    ensures forall p, q :: Adds(c, p, q)
  {
    ModuloReduces(P);
    forall p, q ensures Adds(c, p, q) { AddsHolds(c, Modulo(P), k, d, p, q); }
  }
}
