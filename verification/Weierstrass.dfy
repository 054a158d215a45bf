/** The point formulas of ecdsa.rs against the affine chord-and-tangent law of the curves
    y^2 = x^3 - 3x + b: adding and doubling Jacobian coordinates adds the affine points they
    stand for, in every case. */
module Weierstrass {
  import opened Congruence
  import opened Ecdsa
  import Bignum
  import Inverses
  import Monoid
  import Words

  // ---- the field operations compute, up to the modulus, what they are named after ---------

  ghost predicate FollowsAt(m: Mod, f: Residues, x: int, y: int)
  {
    && m.same(f.mul(x, y), x * y) && m.same(f.add(x, y), x + y) && m.same(f.sub(x, y), x - y)
    && (m.same(f.sub(x, y), 0) ==> f.sub(x, y) == 0)
  }

  ghost predicate OnceAt(m: Mod, f: Residues, x: int, y: int, u: int, v: int)
  {
    m.same(f.mul(x, y), f.mul(u, v)) ==> f.mul(x, y) == f.mul(u, v)
  }

  /** A prime modulus other than 2, and its reduced operations. */
  ghost predicate Field(m: Mod, f: Residues)
  {
    && Prime(m) && !m.same(2, 0)
    && (forall x, y :: FollowsAt(m, f, x, y))
    && (forall x, y, u, v :: OnceAt(m, f, x, y, u, v))
  }

  lemma ResiduesFollow(f: Residues, p: nat)
    requires Modular(f, p) && Prime(Modulo(p)) && !Modulo(p).same(2, 0)
    ensures Field(Modulo(p), f)
  {
    var m := Modulo(p);
    forall x, y ensures FollowsAt(m, f, x, y) {
      assert ModularAt(f, p, x, y);
      OnceReduced(p, x * y);
      OnceReduced(p, x + y);
      OnceReduced(p, x - y);
    }
    forall x, y, u, v ensures OnceAt(m, f, x, y, u, v) {
      assert ModularAt(f, p, x, y) && ModularAt(f, p, u, v);
      OnceReduced(p, x * y);
      OnceReduced(p, u * v);
    }
  }

  lemma OnceReduced(p: int, z: int)
    requires p > 0
    ensures z % p % p == z % p && 0 % p == 0
  {
    Words.ModUnique(z % p, p, 0, z % p);
    Words.ModUnique(0, p, 0, 0);
  }

  lemma Mul(m: Mod, f: Residues, a: int, x: int, b: int, y: int)
    requires Field(m, f) && m.same(a, x) && m.same(b, y)
    ensures m.same(f.mul(a, b), x * y)
  {
    assert FollowsAt(m, f, a, b);
    Products(m, a, x, b, y);
    Trans(m, f.mul(a, b), a * b, x * y);
  }

  lemma Plus(m: Mod, f: Residues, a: int, x: int, b: int, y: int)
    requires Field(m, f) && m.same(a, x) && m.same(b, y)
    ensures m.same(f.add(a, b), x + y)
  {
    assert FollowsAt(m, f, a, b);
    Sums(m, a, x, b, y);
    Trans(m, f.add(a, b), a + b, x + y);
  }

  lemma Minus(m: Mod, f: Residues, a: int, x: int, b: int, y: int)
    requires Field(m, f) && m.same(a, x) && m.same(b, y)
    ensures m.same(f.sub(a, b), x - y)
  {
    assert FollowsAt(m, f, a, b);
    Differences(m, a, x, b, y);
    Trans(m, f.sub(a, b), a - b, x - y);
  }

  // ---- affine points --------------------------------------------------------------------------

  datatype Affine = Infinite | At(x: int, y: int)

  /** The third point on the line of slope l through (x1, y1) and a point over x2, mirrored. */
  function Along(l: int, x1: int, y1: int, x2: int): Affine
  {
    var x3 := l * l - x1 - x2;
    At(x3, l * (x1 - x3) - y1)
  }

  /** l is the slope of the chord through both points, or of the tangent when they are one. */
  ghost predicate Slope(m: Mod, p: Affine, q: Affine, l: int)
  {
    p.At? && q.At? ==>
      && (!m.same(p.x, q.x) ==> m.same(l * (q.x - p.x), q.y - p.y))
      && (m.same(p.x, q.x) && m.same(p.y, q.y) && !m.same(p.y, 0) ==> m.same(l * (2 * p.y), 3 * (p.x * p.x - 1)))
  }

  /** Chord and tangent, with the point at infinity where there is no third point. */
  ghost function Sum(m: Mod, p: Affine, q: Affine, l: int): Affine
  {
    if p.Infinite? then q
    else if q.Infinite? then p
    else if !m.same(p.x, q.x) then Along(l, p.x, p.y, q.x)
    else if m.same(p.y, q.y) && !m.same(p.y, 0) then Along(l, p.x, p.y, p.x)
    else Infinite
  }

  /** The coordinates stand for (x, y) at scale n. */
  ghost predicate Stands(m: Mod, c: Coords, x: int, y: int, n: int)
  {
    m.same(c.x, x * (n * n)) && m.same(c.y, y * (n * n * n)) && m.same(c.z, n) && (m.same(c.y, 0) ==> c.y == 0)
  }

  ghost predicate Represents(m: Mod, c: Coords, p: Affine, n: int)
  {
    match p
    case Infinite => c.z == 0
    case At(x, y) => c.z != 0 && !m.same(n, 0) && Stands(m, c, x, y, n)
  }

  // ---- adding ---------------------------------------------------------------------------------------

  /** The formula from the two differences on: h = (x2 - x1) w^2 and r = l h w. */
  lemma AddFromIs(m: Mod, f: Residues, u1: int, s1: int, h: int, r: int, zz: int, x1: int, y1: int, d: int, w: int, l: int)
    requires Field(m, f)
    requires m.same(u1, x1 * (w * w)) && m.same(s1, y1 * (w * w * w)) && m.same(h, d * (w * w)) && m.same(zz, w)
    requires m.same(r, l * (w * (d * (w * w))))
    ensures var sum := Along(l, x1, y1, x1 + d);
            Stands(m, AddFrom(f, u1, s1, h, r, zz), sum.x, sum.y, w * (d * (w * w)))
  {
    var hh := d * (w * w);
    var n := w * hh;
    var nn := n * n;
    var x3 := l * l - x1 - (x1 + d);
    var h2 := f.mul(h, h);
    var h3 := f.mul(h2, h);
    var u1h2 := f.mul(u1, h2);
    Mul(m, f, h, hh, h, hh);
    Mul(m, f, h2, hh * hh, h, hh);
    Mul(m, f, u1, x1 * (w * w), h2, hh * hh);
    Squared(x1, w, hh);
    CubeOf(d, w);
    Mul(m, f, r, l * n, r, l * n);
    var rr := f.mul(r, r);
    Minus(m, f, rr, (l * n) * (l * n), h3, d * nn);
    Plus(m, f, u1h2, x1 * nn, u1h2, x1 * nn);
    var x := f.sub(f.sub(rr, h3), f.add(u1h2, u1h2));
    Minus(m, f, f.sub(rr, h3), (l * n) * (l * n) - d * nn, f.add(u1h2, u1h2), x1 * nn + x1 * nn);
    XForm(l, n, d, x1);
    assert m.same(x, x3 * nn);
    Minus(m, f, u1h2, x1 * nn, x, x3 * nn);
    Mul(m, f, r, l * n, f.sub(u1h2, x), x1 * nn - x3 * nn);
    Mul(m, f, s1, y1 * (w * w * w), h3, hh * hh * hh);
    Minus(m, f, f.mul(r, f.sub(u1h2, x)), (l * n) * (x1 * nn - x3 * nn), f.mul(s1, h3), (y1 * (w * w * w)) * (hh * hh * hh));
    YForm(l, n, x1, x3, y1, w, hh);
    Mul(m, f, zz, w, h, hh);
    assert FollowsAt(m, f, f.mul(r, f.sub(u1h2, x)), f.mul(s1, h3));
  }

  lemma Squared(x: int, w: int, h: int)
    ensures (x * (w * w)) * (h * h) == x * ((w * h) * (w * h))
  {
  }

  lemma CubeOf(d: int, w: int)
    ensures var h := d * (w * w); h * h * h == d * ((w * h) * (w * h))
  {
    var h := d * (w * w);
    Squared(d, w, h);
    assert h * h * h == (d * (w * w)) * (h * h);
  }

  lemma XForm(l: int, n: int, d: int, x: int)
    ensures (l * n) * (l * n) - d * (n * n) - (x * (n * n) + x * (n * n)) == (l * l - x - (x + d)) * (n * n)
  {
    assert (l * n) * (l * n) == (l * l) * (n * n);
  }

  lemma YForm(l: int, n: int, x1: int, x3: int, y: int, w: int, h: int)
    requires n == w * h
    ensures (l * n) * (x1 * (n * n) - x3 * (n * n)) - (y * (w * w * w)) * (h * h * h) == (l * (x1 - x3) - y) * (n * n * n)
  {
    CubesMultiply(y, w, h);
    DoubleY(l, n, x1, x3, y);
  }

  lemma CubesMultiply(y: int, w: int, h: int)
    ensures (y * (w * w * w)) * (h * h * h) == y * ((w * h) * (w * h) * (w * h))
  {
    assert (w * w * w) * (h * h * h) == (w * h) * (w * h) * (w * h);
    Regroup3(y, w * w * w, h * h * h);
  }

  lemma Regroup3(a: int, b: int, c: int)
    ensures (a * b) * c == a * (b * c)
  {
  }

  /** What both points are brought to one scale for. */
  lemma Cross(m: Mod, f: Residues, a: Coords, x: int, y: int, n: int, b: Coords, k: int)
    requires Field(m, f) && Stands(m, a, x, y, n) && m.same(b.z, k)
    ensures var w := n * k;
            && m.same(f.mul(a.x, f.mul(b.z, b.z)), x * (w * w))
            && m.same(f.mul(f.mul(a.y, b.z), f.mul(b.z, b.z)), y * (w * w * w))
  {
    Mul(m, f, b.z, k, b.z, k);
    Mul(m, f, a.x, x * (n * n), f.mul(b.z, b.z), k * k);
    Squared(x, n, k);
    Mul(m, f, a.y, y * (n * n * n), b.z, k);
    Mul(m, f, f.mul(a.y, b.z), y * (n * n * n) * k, f.mul(b.z, b.z), k * k);
    Cubed(y, n, k);
  }

  lemma Cubed(y: int, n: int, k: int)
    ensures y * (n * n * n) * k * (k * k) == y * ((n * k) * (n * k) * (n * k))
  {
    assert (n * n * n) * k * (k * k) == (n * k) * (n * k) * (n * k);
    assert y * (n * n * n) * k * (k * k) == y * ((n * n * n) * k * (k * k));
  }

  /** The chord: points over different x. */
  lemma AddIsChord(m: Mod, f: Residues, a: Coords, x1: int, y1: int, n1: int, b: Coords, x2: int, y2: int, n2: int, l: int)
      returns (n: int)
    requires Field(m, f) && Represents(m, a, At(x1, y1), n1) && Represents(m, b, At(x2, y2), n2)
    requires !m.same(x1, x2) && m.same(l * (x2 - x1), y2 - y1)
    ensures Represents(m, AddCoords(f, a, b), Along(l, x1, y1, x2), n)
  {
    var w := n1 * n2;
    var d := x2 - x1;
    n := w * (d * (w * w));
    var u1, u2 := f.mul(a.x, f.mul(b.z, b.z)), f.mul(b.x, f.mul(a.z, a.z));
    var s1, s2 := f.mul(f.mul(a.y, b.z), f.mul(b.z, b.z)), f.mul(f.mul(b.y, a.z), f.mul(a.z, a.z));
    Cross(m, f, a, x1, y1, n1, b, n2);
    Cross(m, f, b, x2, y2, n2, a, n1);
    assert n2 * n1 == w;
    ScaleNotZero(m, n1, n2, x1, x2);
    Minus(m, f, u2, x2 * (w * w), u1, x1 * (w * w));
    assert x2 * (w * w) - x1 * (w * w) == d * (w * w);
    Minus(m, f, s2, y2 * (w * w * w), s1, y1 * (w * w * w));
    Rise(m, f.sub(s2, s1), y1, y2, d, w, l);
    Mul(m, f, a.z, n1, b.z, n2);
    if u1 == u2 {
      Sym(m, u1, x1 * (w * w));
      Trans(m, x1 * (w * w), u1, x2 * (w * w));
      Cancels(m, x1, x2, w * w);
      assert false;
    }
    AddFromIs(m, f, u1, s1, f.sub(u2, u1), f.sub(s2, s1), f.mul(a.z, b.z), x1, y1, d, w, l);
    NonZeroIsNotZero(m, AddCoords(f, a, b).z, n);
  }

  lemma Rise(m: Mod, r: int, y1: int, y2: int, d: int, w: int, l: int)
    requires Lawful(m) && m.same(r, y2 * (w * w * w) - y1 * (w * w * w)) && m.same(l * d, y2 - y1)
    ensures m.same(r, l * (w * (d * (w * w))))
  {
    var w3 := w * w * w;
    assert y2 * w3 - y1 * w3 == (y2 - y1) * w3;
    Refl(m, w3);
    Sym(m, l * d, y2 - y1);
    Products(m, y2 - y1, l * d, w3, w3);
    Trans(m, r, (y2 - y1) * w3, (l * d) * w3);
    assert (l * d) * (w * w * w) == l * (w * (d * (w * w)));
  }

  lemma NonZeroIsNotZero(m: Mod, z: int, n: int)
    requires Lawful(m) && m.same(z, n) && !m.same(n, 0)
    ensures z != 0
  {
    Sym(m, z, n);
  }

  lemma ScaleNotZero(m: Mod, n1: int, n2: int, x1: int, x2: int)
    requires Prime(m) && !m.same(n1, 0) && !m.same(n2, 0) && !m.same(x1, x2)
    ensures var w := n1 * n2; !m.same(w * w, 0) && !m.same(w * ((x2 - x1) * (w * w)), 0)
  {
    var w := n1 * n2;
    NotZero(m, n1, n2);
    NotZero(m, w, w);
    if m.same(x2 - x1, 0) {
      Refl(m, x1);
      Sums(m, x2 - x1, 0, x1, x1);
      Sym(m, x2, x1);
    }
    NotZero(m, x2 - x1, w * w);
    NotZero(m, w, (x2 - x1) * (w * w));
  }

  // ---- doubling ---------------------------------------------------------------------------------------

  lemma Twofold(m: Mod, f: Residues, a: int, x: int)
    requires Field(m, f) && m.same(a, x)
    ensures m.same(Twice(f, a), 2 * x)
  {
    Plus(m, f, a, x, a, x);
  }

  lemma Fourfold(m: Mod, f: Residues, a: int, x: int)
    requires Field(m, f) && m.same(a, x)
    ensures m.same(Four(f, a), 4 * x)
  {
    Twofold(m, f, a, x);
    Twofold(m, f, Twice(f, a), 2 * x);
  }

  /** Three times (x - z^2)(x + z^2) is the slope at the scale of the double. */
  lemma SlopeIs(m: Mod, f: Residues, c: Coords, x: int, y: int, n: int, l: int)
    requires Field(m, f) && Stands(m, c, x, y, n) && m.same(l * (2 * y), 3 * (x * x - 1))
    ensures var z2 := f.mul(c.z, c.z);
            var m0 := f.mul(f.sub(c.x, z2), f.add(c.x, z2));
            m.same(f.add(m0, f.add(m0, m0)), l * (2 * (y * (n * n * n) * n)))
  {
    var z2 := f.mul(c.z, c.z);
    var nn := n * n;
    var m0 := f.mul(f.sub(c.x, z2), f.add(c.x, z2));
    Mul(m, f, c.z, n, c.z, n);
    Minus(m, f, c.x, x * nn, z2, nn);
    Plus(m, f, c.x, x * nn, z2, nn);
    Mul(m, f, f.sub(c.x, z2), x * nn - nn, f.add(c.x, z2), x * nn + nn);
    var k := (x * nn - nn) * (x * nn + nn);
    Plus(m, f, m0, k, m0, k);
    Plus(m, f, m0, k, f.add(m0, m0), k + k);
    assert k == (x * x - 1) * (nn * nn) by {
      assert (x * nn) * (x * nn) == (x * x) * (nn * nn);
      assert k == (x * nn) * (x * nn) - nn * nn;
    }
    assert k + (k + k) == 3 * (x * x - 1) * (nn * nn);
    Refl(m, nn * nn);
    Sym(m, l * (2 * y), 3 * (x * x - 1));
    Products(m, 3 * (x * x - 1), l * (2 * y), nn * nn, nn * nn);
    Trans(m, f.add(m0, f.add(m0, m0)), 3 * (x * x - 1) * (nn * nn), l * (2 * y) * (nn * nn));
    SlopeForm(l, y, n);
  }

  lemma SlopeForm(l: int, y: int, n: int)
    ensures l * (2 * y) * ((n * n) * (n * n)) == l * (2 * (y * (n * n * n) * n))
  {
    assert (n * n) * (n * n) == n * n * n * n;
    assert y * (n * n * n) * n == y * (n * n * n * n);
    assert l * (2 * y) * (n * n * n * n) == l * (2 * (y * (n * n * n * n)));
  }

  lemma DoubleFromIs(m: Mod, f: Residues, c: Coords, x: int, y: int, n: int, k: int, l: int)
    requires Field(m, f) && Stands(m, c, x, y, n)
    requires m.same(k, l * (2 * (y * (n * n * n) * n)))
    ensures var sum := Along(l, x, y, x);
            Stands(m, DoubleFrom(f, c, k, f.mul(c.y, c.y)), sum.x, sum.y, 2 * (y * (n * n * n) * n))
  {
    var v := y * (n * n * n);
    var z := 2 * (v * n);
    var zz := z * z;
    var x3 := l * l - x - x;
    var y2 := f.mul(c.y, c.y);
    Mul(m, f, c.y, v, c.y, v);
    Mul(m, f, c.x, x * (n * n), y2, v * v);
    Squared(x, n, v);
    Fourfold(m, f, f.mul(c.x, y2), x * (n * n) * (v * v));
    var s := Four(f, f.mul(c.x, y2));
    FourSquares(x, n, v);
    assert m.same(s, x * zz);
    Mul(m, f, k, l * z, k, l * z);
    Plus(m, f, s, x * zz, s, x * zz);
    var x' := f.sub(f.mul(k, k), f.add(s, s));
    Minus(m, f, f.mul(k, k), (l * z) * (l * z), f.add(s, s), x * zz + x * zz);
    XForm(l, z, 0, x);
    assert m.same(x', x3 * zz);
    Minus(m, f, s, x * zz, x', x3 * zz);
    Mul(m, f, k, l * z, f.sub(s, x'), x * zz - x3 * zz);
    Mul(m, f, y2, v * v, y2, v * v);
    var y4 := f.mul(y2, y2);
    Fourfold(m, f, y4, v * v * (v * v));
    Twofold(m, f, Four(f, y4), 4 * (v * v * (v * v)));
    EightFourths(y, n);
    Minus(m, f, f.mul(k, f.sub(s, x')), (l * z) * (x * zz - x3 * zz), Twice(f, Four(f, y4)), y * (z * z * z));
    DoubleY(l, z, x, x3, y);
    Mul(m, f, c.y, v, c.z, n);
    Twofold(m, f, f.mul(c.y, c.z), v * n);
    assert FollowsAt(m, f, f.mul(k, f.sub(s, x')), Twice(f, Four(f, y4)));
  }

  lemma FourSquares(x: int, n: int, v: int)
    ensures var z := 2 * (v * n); 4 * (x * (n * n) * (v * v)) == x * (z * z)
  {
    var z := 2 * (v * n);
    assert z * z == 4 * ((v * n) * (v * n));
    assert (v * n) * (v * n) == (n * n) * (v * v);
    assert x * (n * n) * (v * v) == x * ((n * n) * (v * v));
  }

  lemma EightFourths(y: int, n: int)
    ensures var v := y * (n * n * n); var z := 2 * (v * n); 2 * (4 * (v * v * (v * v))) == y * (z * z * z)
  {
    var v := y * (n * n * n);
    var t := v * n;
    var z := 2 * t;
    assert z * z * z == 8 * (t * t * t);
    assert t * t * t == (v * v * v) * (n * n * n);
    assert v * v * (v * v) == (v * v * v) * v;
    assert (v * v * v) * (y * (n * n * n)) == y * ((v * v * v) * (n * n * n));
  }

  lemma DoubleY(l: int, z: int, x: int, x3: int, y: int)
    ensures (l * z) * (x * (z * z) - x3 * (z * z)) - y * (z * z * z) == (l * (x - x3) - y) * (z * z * z)
  {
    var zz := z * z;
    assert x * zz - x3 * zz == (x - x3) * zz;
    assert (l * z) * ((x - x3) * zz) == (l * (x - x3)) * (z * zz);
    assert z * zz == z * z * z;
  }

  /** The tangent, or infinity at a point of order two. */
  lemma DoubleIsTangent(m: Mod, f: Residues, c: Coords, x: int, y: int, n: int, l: int) returns (k: int)
    requires Field(m, f) && Represents(m, c, At(x, y), n)
    requires !m.same(y, 0) ==> m.same(l * (2 * y), 3 * (x * x - 1))
    ensures Represents(m, DoubleCoords(f, c), if m.same(y, 0) then Infinite else Along(l, x, y, x), k)
  {
    k := 2 * (y * (n * n * n) * n);
    NotZero(m, n, n);
    NotZero(m, n * n, n);
    if m.same(y, 0) {
      Refl(m, n * n * n);
      Products(m, y, 0, n * n * n, n * n * n);
      Trans(m, c.y, y * (n * n * n), 0);
    } else {
      NotZero(m, y, n * n * n);
      NotZero(m, y * (n * n * n), n);
      NotZero(m, 2, y * (n * n * n) * n);
      NonZeroIsNotZero(m, c.y, y * (n * n * n));
      SlopeIs(m, f, c, x, y, n, l);
      var z2 := f.mul(c.z, c.z);
      var m0 := f.mul(f.sub(c.x, z2), f.add(c.x, z2));
      DoubleFromIs(m, f, c, x, y, n, f.add(m0, f.add(m0, m0)), l);
      NonZeroIsNotZero(m, DoubleCoords(f, c).z, k);
    }
  }

  // ---- the law ------------------------------------------------------------------------------------------

  /** Whatever two points the coordinates stand for, the sum of the coordinates stands for
      their sum by chord and tangent. */
  lemma AddIsSum(m: Mod, f: Residues, a: Coords, p: Affine, n1: int, b: Coords, q: Affine, n2: int, l: int)
      returns (n: int)
    requires Field(m, f) && Represents(m, a, p, n1) && Represents(m, b, q, n2) && Slope(m, p, q, l)
    ensures Represents(m, AddCoords(f, a, b), Sum(m, p, q, l), n)
  {
    n := 0;
    if p.Infinite? {
      n := n2;
    } else if q.Infinite? {
      n := n1;
    } else if !m.same(p.x, q.x) {
      n := AddIsChord(m, f, a, p.x, p.y, n1, b, q.x, q.y, n2, l);
    } else {
      SameColumn(m, f, a, p.x, p.y, n1, b, q.x, q.y, n2);
      if m.same(p.y, q.y) {
        n := DoubleIsTangent(m, f, a, p.x, p.y, n1, l);
      }
    }
  }

  /** Over one x the formula doubles, when the points are one, or answers infinity. */
  lemma SameColumn(m: Mod, f: Residues, a: Coords, x1: int, y1: int, n1: int, b: Coords, x2: int, y2: int, n2: int)
    requires Field(m, f) && Represents(m, a, At(x1, y1), n1) && Represents(m, b, At(x2, y2), n2) && m.same(x1, x2)
    ensures AddCoords(f, a, b) == if m.same(y1, y2) then DoubleCoords(f, a) else INFINITY
  {
    var w := n1 * n2;
    var u1, u2 := f.mul(a.x, f.mul(b.z, b.z)), f.mul(b.x, f.mul(a.z, a.z));
    var s1, s2 := f.mul(f.mul(a.y, b.z), f.mul(b.z, b.z)), f.mul(f.mul(b.y, a.z), f.mul(a.z, a.z));
    Cross(m, f, a, x1, y1, n1, b, n2);
    Cross(m, f, b, x2, y2, n2, a, n1);
    assert n2 * n1 == w;
    NotZero(m, n1, n2);
    NotZero(m, w, w);
    NotZero(m, w * w, w);
    Compare(m, u1, x1, u2, x2, w * w);
    Compare(m, s1, y1, s2, y2, w * w * w);
    assert OnceAt(m, f, a.x, f.mul(b.z, b.z), b.x, f.mul(a.z, a.z));
    assert OnceAt(m, f, f.mul(a.y, b.z), f.mul(b.z, b.z), f.mul(b.y, a.z), f.mul(a.z, a.z));
    Refl(m, s1);
  }

  lemma Compare(m: Mod, u: int, x: int, v: int, y: int, w: int)
    requires Prime(m) && m.same(u, x * w) && m.same(v, y * w) && !m.same(w, 0)
    ensures m.same(u, v) <==> m.same(x, y)
  {
    Cancels(m, x, y, w);
    Sym(m, u, x * w);
    Sym(m, v, y * w);
    if m.same(x, y) {
      Trans(m, u, x * w, y * w);
      Trans(m, u, y * w, v);
    }
    if m.same(u, v) {
      Trans(m, x * w, u, v);
      Trans(m, x * w, v, y * w);
    }
  }

  // ---- the group law of the curve ---------------------------------------------------------------------------

  /** The affine points on a curve, and the group elements they are. */
  datatype Points<!G> = Points(on: Affine -> bool, element: Affine -> G)

  /** a stands for an affine point on the curve. */
  ghost predicate Standing<G>(m: Mod, k: Points<G>, a: Coords, p: Affine, n: int)
  {
    k.on(p) && Represents(m, a, p, n)
  }

  ghost predicate OnAt<G(!new)>(c: Curve<G>, m: Mod, k: Points<G>, a: Coords)
  {
    c.onCurve(a) <==> exists p, n :: Standing(m, k, a, p, n)
  }

  ghost predicate DenotesAt<G(!new)>(c: Curve<G>, m: Mod, k: Points<G>, a: Coords, p: Affine, n: int)
  {
    Standing(m, k, a, p, n) ==> c.denote(a) == k.element(p)
  }

  ghost predicate SumWith<G(!new)>(c: Curve<G>, m: Mod, k: Points<G>, p: Affine, q: Affine, l: int)
  {
    && Slope(m, p, q, l) && k.on(Sum(m, p, q, l))
    && k.element(Sum(m, p, q, l)) == c.group.apply(k.element(p), k.element(q))
  }

  ghost predicate SumsAt<G(!new)>(c: Curve<G>, m: Mod, k: Points<G>, p: Affine, q: Affine)
  {
    k.on(p) && k.on(q) ==> exists l :: SumWith(c, m, k, p, q, l)
  }

  /** The curve's group is its affine points, added by chord and tangent, and coordinates
      denote the points they stand for. */
  ghost predicate ByChordAndTangent<G(!new)>(c: Curve<G>, m: Mod, k: Points<G>)
  {
    && (forall a :: OnAt(c, m, k, a))
    && (forall a, p, n :: DenotesAt(c, m, k, a, p, n))
    && (forall p, q :: SumsAt(c, m, k, p, q))
  }

  lemma Denoted<G(!new)>(c: Curve<G>, m: Mod, k: Points<G>, a: Coords, p: Affine, n: int)
    requires ByChordAndTangent(c, m, k) && Standing(m, k, a, p, n)
    ensures c.onCurve(a) && c.denote(a) == k.element(p)
  {
    assert OnAt(c, m, k, a) && DenotesAt(c, m, k, a, p, n);
  }

  lemma DoubleIsSum(m: Mod, f: Residues, a: Coords, p: Affine, n: int, l: int) returns (r: int)
    requires Field(m, f) && Represents(m, a, p, n) && Slope(m, p, p, l)
    ensures Represents(m, DoubleCoords(f, a), Sum(m, p, p, l), r)
  {
    r := 0;
    if p.At? {
      Refl(m, p.x);
      Refl(m, p.y);
      r := DoubleIsTangent(m, f, a, p.x, p.y, n, l);
    }
  }

  /** What the scalar multiplication takes from the curve, its formulas keep: they are the
      group law when chord and tangent are. */
  lemma GroupLawHolds<G(!new)>(c: Curve<G>, m: Mod, k: Points<G>, a: Coords, b: Coords)
    requires Field(m, c.f) && ByChordAndTangent(c, m, k)
    ensures GroupLaw(c, a, b)
  {
    if c.onCurve(a) && c.onCurve(b) {
      assert OnAt(c, m, k, a) && OnAt(c, m, k, b);
      var p, n :| Standing(m, k, a, p, n);
      var q, o :| Standing(m, k, b, q, o);
      Denoted(c, m, k, a, p, n);
      Denoted(c, m, k, b, q, o);
      assert SumsAt(c, m, k, p, q) && SumsAt(c, m, k, p, p);
      var l :| SumWith(c, m, k, p, q, l);
      var r := AddIsSum(m, c.f, a, p, n, b, q, o, l);
      Denoted(c, m, k, AddCoords(c.f, a, b), Sum(m, p, q, l), r);
      var t :| SumWith(c, m, k, p, p, t);
      var d := DoubleIsSum(m, c.f, a, p, n, t);
      Denoted(c, m, k, DoubleCoords(c.f, a), Sum(m, p, p, t), d);
    }
  }

  /** So over a prime modulus the laws of the curve follow from those of its group. */
  lemma CurveLawsHold<G(!new)>(c: Curve<G>, p: Bignum.Big, k: Points<G>)
    requires Modulus(c.f, p) && Bignum.Int(p) > 2 && Prime(Modulo(Bignum.Int(p)))
    requires ByChordAndTangent(c, Modulo(Bignum.Int(p)), k)
    requires Monoid.Laws(c.group) && (forall g :: c.group.apply(g, c.group.unit) == g)
    requires forall g, h :: Monoid.Commutes(c.group, g, h)
    requires k.on(Infinite) && k.element(Infinite) == c.group.unit
    ensures CurveLaws(c, p)
  {
    var m := Modulo(Bignum.Int(p));
    Words.ModUnique(2, Bignum.Int(p), 0, 2);
    Words.ModUnique(0, Bignum.Int(p), 0, 0);
    ResiduesFollow(c.f, Bignum.Int(p));
    forall a, b ensures GroupLaw(c, a, b) { GroupLawHolds(c, m, k, a, b); }
    Denoted(c, m, k, INFINITY, Infinite, 0);
  }

  // ---- what a verifier takes from the curve ----------------------------------------------------------------

  /** The finite points are those of the equation. */
  ghost predicate EquationAt<G>(m: Mod, k: Points<G>, b: int, x: int, y: int)
  {
    k.on(At(x, y)) <==> m.same(y * y, x * x * x - (x + (x + x)) + b)
  }

  /** A finite point is not the unit, and its element's affine x is its own, reduced. */
  ghost predicate AffineXAt<G(!new)>(c: Curve<G>, k: Points<G>, p: nat, x: int, y: int)
    requires p > 0
  {
    k.on(At(x, y)) ==> k.element(At(x, y)) != c.group.unit && c.affineX(k.element(At(x, y))) == x % p
  }

  lemma SatisfiesFollows(m: Mod, f: Residues, b: int, x: int, y: int)
    requires Field(m, f) && Satisfies(f, b, x, y)
    ensures m.same(y * y, x * x * x - (x + (x + x)) + b)
  {
    Refl(m, x);
    Refl(m, y);
    Refl(m, b);
    Mul(m, f, y, y, y, y);
    Mul(m, f, x, x, x, x);
    Mul(m, f, f.mul(x, x), x * x, x, x);
    Plus(m, f, x, x, x, x);
    Plus(m, f, x, x, f.add(x, x), x + x);
    Minus(m, f, f.mul(f.mul(x, x), x), x * x * x, f.add(x, f.add(x, x)), x + (x + x));
    Plus(m, f, f.sub(f.mul(f.mul(x, x), x), f.add(x, f.add(x, x))), x * x * x - (x + (x + x)), b, b);
    Sym(m, f.mul(y, y), y * y);
    Trans(m, y * y, f.mul(y, y), x * x * x - (x + (x + x)) + b);
  }

  lemma AffineStands(p: nat, x: int, y: int)
    requires p > 1 && 0 <= y < p
    ensures Represents(Modulo(p), Coords(x, y, 1), At(x, y), 1)
  {
    Words.ModUnique(1, p, 0, 1);
    Words.ModUnique(0, p, 0, 0);
    Words.ModUnique(y, p, 0, y);
  }

  lemma OnCurveLawHolds<G(!new)>(c: Curve<G>, k: Params, pts: Points<G>, p: nat, x: int, y: int)
    requires p == Bignum.Int(k.p) > 1 && Field(Modulo(p), c.f) && ByChordAndTangent(c, Modulo(p), pts)
    requires EquationAt(Modulo(p), pts, Bignum.Int(k.b), x, y)
    ensures OnCurveLaw(k, c, x, y)
  {
    if 0 <= x < p && 0 <= y < p && Satisfies(c.f, Bignum.Int(k.b), x, y) {
      SatisfiesFollows(Modulo(p), c.f, Bignum.Int(k.b), x, y);
      AffineStands(p, x, y);
      Denoted(c, Modulo(p), pts, Coords(x, y, 1), At(x, y), 1);
    }
  }

  /** x n^2 over n^2 is x. */
  lemma Divided(m: Mod, a: int, x: int, n: int, z: int, i: int)
    requires Lawful(m) && m.same(a, x * (n * n)) && m.same(z, n) && m.same(z * i, 1)
    ensures m.same(a * (i * i), x)
  {
    Refl(m, i);
    Refl(m, x);
    Sym(m, z, n);
    Products(m, n, z, i, i);
    Trans(m, n * i, z * i, 1);
    Products(m, n * i, 1, n * i, 1);
    Products(m, a, x * (n * n), i, i);
    Products(m, a * i, x * (n * n) * i, i, i);
    Products(m, x, x, (n * i) * (n * i), 1);
    Grouped(a, x, n, i);
    Trans(m, a * (i * i), x * ((n * i) * (n * i)), x);
  }

  lemma Grouped(a: int, x: int, n: int, i: int)
    ensures (a * i) * i == a * (i * i) && (x * (n * n) * i) * i == x * ((n * i) * (n * i))
  {
    assert (x * (n * n) * i) * i == x * ((n * n) * (i * i));
    assert (n * n) * (i * i) == (n * i) * (n * i);
  }

  lemma FiniteX(f: Residues, p: nat, a: Coords, x: int, n: int)
    requires p > 1 && Field(Modulo(p), f) && Modular(f, p) && Modulo(p).same(a.x, x * (n * n)) && Modulo(p).same(a.z, n)
    requires 0 <= a.z < p && !Modulo(p).same(n, 0)
    ensures var zi := Bignum.PowMod(a.z, p - 2, p); f.mul(a.x, f.mul(zi, zi)) == x % p
  {
    var m := Modulo(p);
    var zi := Bignum.PowMod(a.z, p - 2, p);
    Words.ModUnique(0, p, 0, 0);
    Words.ModUnique(1, p, 0, 1);
    Inverses.ModInverseInverts(a.z, p);
    Refl(m, a.x);
    Refl(m, zi);
    Mul(m, f, zi, zi, zi, zi);
    Mul(m, f, a.x, a.x, f.mul(zi, zi), zi * zi);
    Divided(m, a.x, x, n, a.z, zi);
    Trans(m, f.mul(a.x, f.mul(zi, zi)), a.x * (zi * zi), x);
    assert ModularAt(f, p, a.x, f.mul(zi, zi));
    OnceReduced(p, a.x * f.mul(zi, zi));
  }

  lemma AffineLawHolds<G(!new)>(c: Curve<G>, k: Params, pts: Points<G>, p: nat, a: Coords)
    requires p == Bignum.Int(k.p) > 1 && Field(Modulo(p), c.f) && Modular(c.f, p) && ByChordAndTangent(c, Modulo(p), pts)
    requires pts.element(Infinite) == c.group.unit && forall x, y :: AffineXAt(c, pts, p, x, y)
    ensures AffineLaw(k, c, a)
  {
    if c.onCurve(a) && 0 <= a.z < p {
      assert OnAt(c, Modulo(p), pts, a);
      var q, n :| Standing(Modulo(p), pts, a, q, n);
      Denoted(c, Modulo(p), pts, a, q, n);
      if q.At? {
        assert AffineXAt(c, pts, p, q.x, q.y);
        FiniteX(c.f, p, a, q.x, n);
      }
    }
  }

  /** Everything verification takes from the curve, from its equation, its group by chord and
      tangent, and the primality of the modulus. */
  lemma SoundHolds<G(!new)>(c: Curve<G>, k: Params, pts: Points<G>, p: nat)
    requires p == Bignum.Int(k.p) > 2 && Modulus(c.f, k.p) && Prime(Modulo(p)) && ByChordAndTangent(c, Modulo(p), pts)
    requires Monoid.Laws(c.group) && (forall g :: c.group.apply(g, c.group.unit) == g)
    requires forall g, h :: Monoid.Commutes(c.group, g, h)
    requires pts.on(Infinite) && pts.element(Infinite) == c.group.unit
    requires (forall x, y :: EquationAt(Modulo(p), pts, Bignum.Int(k.b), x, y)) && (forall x, y :: AffineXAt(c, pts, p, x, y))
    requires Bignum.Canonical(k.n) && Bignum.Int(k.n) > 1 && Reduced(k.b, k.p) && Reduced(k.gx, k.p) && Reduced(k.gy, k.p)
    requires Satisfies(c.f, Bignum.Int(k.b), Bignum.Int(k.gx), Bignum.Int(k.gy))
    ensures Sound(k, c)
  {
    CurveLawsHold(c, k.p, pts);
    Words.ModUnique(2, p, 0, 2);
    Words.ModUnique(0, p, 0, 0);
    ResiduesFollow(c.f, p);
    forall x, y ensures OnCurveLaw(k, c, x, y) { OnCurveLawHolds(c, k, pts, p, x, y); }
    forall a ensures AffineLaw(k, c, a) { AffineLawHolds(c, k, pts, p, a); }
    assert OnCurveLaw(k, c, Bignum.Int(k.gx), Bignum.Int(k.gy));
  }

  /** Over a group of prime order the inverse the verifier computes is one: a signature made
      with the secret key behind the public key is accepted. */
  lemma SignedOverPrimeOrder<G(!new)>(c: Curve<G>, k: Params, x: nat, y: nat, digest: seq<Words.u8>, bits: nat, r: nat, s: nat,
                                      d: nat, t: nat, n: nat)
    requires Sound(k, c) && n == Bignum.Int(k.n) && Prime(Modulo(n))
    requires x < Bignum.Int(k.p) && y < Bignum.Int(k.p) && Satisfies(c.f, Bignum.Int(k.b), x, y)
    requires var g := c.denote(Coords(Bignum.Int(k.gx), Bignum.Int(k.gy), 1));
             && Monoid.Repeat(c.group, g, n) == c.group.unit && c.denote(Coords(x, y, 1)) == Monoid.Repeat(c.group, g, d)
             && 0 < r < n && 0 < s < n && (s * t) % n == (Cut(digest, bits) + r * d) % n
             && Monoid.Repeat(c.group, g, t) != c.group.unit && c.affineX(Monoid.Repeat(c.group, g, t)) % n == r
    ensures Accepts(c, k, x, y, digest, bits, r, s)
  {
    Words.ModUnique(s, n, 0, s);
    Inverses.ModInverseInverts(s, n);
    SignedIsAccepted(c, k, x, y, digest, bits, r, s, d, t);
  }
}
