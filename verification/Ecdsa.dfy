/** ECDSA verification over a short Weierstrass curve (ecdsa.rs): Jacobian points
    over Bignum, the two-scalar multiplication, the digest cut and the verdict.
    The curve's constants, its group law and the primality facts are parameters. */
module Ecdsa {
  import opened Options
  import opened Words
  import Bytes
  import opened Limbs
  import opened Bignum
  import opened Monoid

  // ---- arithmetic modulo p -------------------------------------------------------

  /** The operations modulo p, by name. */
  datatype Residues = Residues(mul: (int, int) -> int, add: (int, int) -> int, sub: (int, int) -> int)

  ghost predicate ModularAt(f: Residues, p: nat, x: int, y: int)
    requires p > 0
  {
    f.mul(x, y) == (x * y) % p && f.add(x, y) == (x + y) % p && f.sub(x, y) == (x - y) % p
  }

  ghost predicate Modular(f: Residues, p: nat)
  {
    p > 0 && forall x, y :: ModularAt(f, p, x, y)
  }

  predicate Reduced(a: Big, p: Big)
  {
    Canonical(a) && Int(a) < Int(p)
  }

  ghost predicate Modulus(f: Residues, p: Big)
  {
    Canonical(p) && p.limbs != [] && Modular(f, Int(p))
  }

  method FMul(ghost f: Residues, a: Big, b: Big, p: Big) returns (r: Big)
    requires Modulus(f, p)
    ensures Reduced(r, p) && Int(r) == f.mul(Int(a), Int(b))
  {
    r := ModMul(a, b, p);
    assert ModularAt(f, Int(p), Int(a), Int(b));
  }

  method FAdd(ghost f: Residues, a: Big, b: Big, p: Big) returns (r: Big)
    requires Modulus(f, p)
    ensures Reduced(r, p) && Int(r) == f.add(Int(a), Int(b))
  {
    r := ModAdd(a, b, p);
    assert ModularAt(f, Int(p), Int(a), Int(b));
  }

  method FSub(ghost f: Residues, a: Big, b: Big, p: Big) returns (r: Big)
    requires Modulus(f, p) && Reduced(a, p) && Reduced(b, p)
    ensures Reduced(r, p) && Int(r) == f.sub(Int(a), Int(b))
  {
    r := ModSub(a, b, p);
    assert ModularAt(f, Int(p), Int(a), Int(b));
  }

  // ---- Jacobian points ---------------------------------------------------------------

  datatype Coords = Coords(x: int, y: int, z: int)

  const INFINITY := Coords(1, 1, 0)

  /** The doubling formula for a = -3. */
  function DoubleCoords(f: Residues, c: Coords): Coords
  {
    if c.z == 0 || c.y == 0 then INFINITY
    else
      var z2 := f.mul(c.z, c.z);
      var m0 := f.mul(f.sub(c.x, z2), f.add(c.x, z2));
      DoubleFrom(f, c, f.add(m0, f.add(m0, m0)), f.mul(c.y, c.y))
  }

  function DoubleFrom(f: Residues, c: Coords, m: int, y2: int): Coords
  {
    var s := Four(f, f.mul(c.x, y2));
    var x := f.sub(f.mul(m, m), f.add(s, s));
    var y4 := f.mul(y2, y2);
    var z := f.mul(c.y, c.z);
    Coords(x, f.sub(f.mul(m, f.sub(s, x)), Twice(f, Four(f, y4))), Twice(f, z))
  }

  function Twice(f: Residues, x: int): int { f.add(x, x) }

  function Four(f: Residues, x: int): int { Twice(f, Twice(f, x)) }

  /** The addition formula, with its cases: infinity, equal points, opposite points. */
  function AddCoords(f: Residues, a: Coords, b: Coords): Coords
  {
    if a.z == 0 then b
    else if b.z == 0 then a
    else
      var z1z1, z2z2 := f.mul(a.z, a.z), f.mul(b.z, b.z);
      var u1, u2 := f.mul(a.x, z2z2), f.mul(b.x, z1z1);
      var s1, s2 := f.mul(f.mul(a.y, b.z), z2z2), f.mul(f.mul(b.y, a.z), z1z1);
      if u1 == u2 then (if s1 == s2 then DoubleCoords(f, a) else INFINITY)
      else AddFrom(f, u1, s1, f.sub(u2, u1), f.sub(s2, s1), f.mul(a.z, b.z))
  }

  function AddFrom(f: Residues, u1: int, s1: int, h: int, r: int, zz: int): Coords
  {
    var h2 := f.mul(h, h);
    var h3 := f.mul(h2, h);
    var u1h2 := f.mul(u1, h2);
    var x := f.sub(f.sub(f.mul(r, r), h3), f.add(u1h2, u1h2));
    Coords(x, f.sub(f.mul(r, f.sub(u1h2, x)), f.mul(s1, h3)), f.mul(zz, h))
  }

  datatype Point = Point(x: Big, y: Big, z: Big)

  function CoordsOf(p: Point): Coords
  {
    Coords(Int(p.x), Int(p.y), Int(p.z))
  }

  predicate Held(p: Point, m: Big)
  {
    Reduced(p.x, m) && Reduced(p.y, m) && Reduced(p.z, m)
  }

  method Infinity(ghost m: Big) returns (p: Point)
    requires Canonical(m) && Int(m) > 1
    ensures Held(p, m) && CoordsOf(p) == INFINITY
  {
    OneAndZero();
    p := Point(Big([1]), Big([1]), Big([]));
  }

  lemma OneAndZero()
    ensures Value([1]) == 1 && Value([]) == 0
  {
    assert Low([1], 0) == 0;
  }

  lemma ZeroIsEmpty(a: Big)
    requires Canonical(a)
    ensures a.limbs == [] <==> Int(a) == 0
  {
    if a.limbs != [] { TopNonzero(a.limbs); }
  }

  method Double(ghost f: Residues, c: Point, p: Big) returns (r: Point)
    requires Modulus(f, p) && Int(p) > 1 && Held(c, p)
    ensures Held(r, p) && CoordsOf(r) == DoubleCoords(f, CoordsOf(c))
  {
    ZeroIsEmpty(c.z);
    ZeroIsEmpty(c.y);
    if c.z.limbs == [] || c.y.limbs == [] {
      r := Infinity(p);
      return;
    }
    var z2 := FMul(f, c.z, c.z, p);
    var minus := FSub(f, c.x, z2, p);
    var plus := FAdd(f, c.x, z2, p);
    var m0 := FMul(f, minus, plus, p);
    var m1 := FAdd(f, m0, m0, p);
    var m := FAdd(f, m0, m1, p);
    var y2 := FMul(f, c.y, c.y, p);
    r := DoubleTail(f, c, m, y2, p);
  }

  method DoubleTail(ghost f: Residues, c: Point, m: Big, y2: Big, p: Big) returns (r: Point)
    requires Modulus(f, p) && Held(c, p) && Reduced(m, p) && Reduced(y2, p)
    ensures Held(r, p) && CoordsOf(r) == DoubleFrom(f, CoordsOf(c), Int(m), Int(y2))
  {
    var s := FMul(f, c.x, y2, p);
    s := FAdd(f, s, s, p);
    s := FAdd(f, s, s, p);
    var mm := FMul(f, m, m, p);
    var ss := FAdd(f, s, s, p);
    var x := FSub(f, mm, ss, p);
    var y4 := FMul(f, y2, y2, p);
    var eight := FAdd(f, y4, y4, p);
    eight := FAdd(f, eight, eight, p);
    eight := FAdd(f, eight, eight, p);
    var sx := FSub(f, s, x, p);
    var msx := FMul(f, m, sx, p);
    var y := FSub(f, msx, eight, p);
    var z := FMul(f, c.y, c.z, p);
    z := FAdd(f, z, z, p);
    r := Point(x, y, z);
  }

  method AddPoints(ghost f: Residues, a: Point, b: Point, p: Big) returns (r: Point)
    requires Modulus(f, p) && Int(p) > 1 && Held(a, p) && Held(b, p)
    ensures Held(r, p) && CoordsOf(r) == AddCoords(f, CoordsOf(a), CoordsOf(b))
  {
    ZeroIsEmpty(a.z);
    ZeroIsEmpty(b.z);
    if a.z.limbs == [] {
      return b;
    }
    if b.z.limbs == [] {
      return a;
    }
    var z1z1 := FMul(f, a.z, a.z, p);
    var z2z2 := FMul(f, b.z, b.z, p);
    var u1 := FMul(f, a.x, z2z2, p);
    var u2 := FMul(f, b.x, z1z1, p);
    var yz := FMul(f, a.y, b.z, p);
    var s1 := FMul(f, yz, z2z2, p);
    yz := FMul(f, b.y, a.z, p);
    var s2 := FMul(f, yz, z1z1, p);
    var sameX := Cmp(u1, u2);
    if sameX == Equal {
      var sameY := Cmp(s1, s2);
      if sameY == Equal {
        r := Double(f, a, p);
      } else {
        r := Infinity(p);
      }
      return;
    }
    var h := FSub(f, u2, u1, p);
    var d := FSub(f, s2, s1, p);
    var zz := FMul(f, a.z, b.z, p);
    r := AddTail(f, u1, s1, h, d, zz, p);
  }

  method AddTail(ghost f: Residues, u1: Big, s1: Big, h: Big, r: Big, zz: Big, p: Big) returns (q: Point)
    requires Modulus(f, p) && Reduced(u1, p) && Reduced(s1, p) && Reduced(h, p) && Reduced(r, p) && Reduced(zz, p)
    ensures Held(q, p) && CoordsOf(q) == AddFrom(f, Int(u1), Int(s1), Int(h), Int(r), Int(zz))
  {
    var h2 := FMul(f, h, h, p);
    var h3 := FMul(f, h2, h, p);
    var u1h2 := FMul(f, u1, h2, p);
    var rr := FMul(f, r, r, p);
    var x := FSub(f, rr, h3, p);
    var two := FAdd(f, u1h2, u1h2, p);
    x := FSub(f, x, two, p);
    var back := FSub(f, u1h2, x, p);
    var rb := FMul(f, r, back, p);
    var sh := FMul(f, s1, h3, p);
    var y := FSub(f, rb, sh, p);
    var z := FMul(f, zz, h, p);
    q := Point(x, y, z);
  }

  // ---- the group -----------------------------------------------------------------------

  /** A curve: its group, the element coordinates denote, and an element's affine x. */
  datatype Curve<!G(!new)> = Curve(group: Op<G>, f: Residues, onCurve: Coords -> bool, denote: Coords -> G, affineX: G -> int)

  ghost predicate GroupLaw<G(!new)>(c: Curve<G>, a: Coords, b: Coords)
  {
    c.onCurve(a) && c.onCurve(b) ==>
      && c.onCurve(AddCoords(c.f, a, b)) && c.denote(AddCoords(c.f, a, b)) == c.group.apply(c.denote(a), c.denote(b))
      && c.onCurve(DoubleCoords(c.f, a)) && c.denote(DoubleCoords(c.f, a)) == c.group.apply(c.denote(a), c.denote(a))
  }

  ghost predicate CurveLaws<G(!new)>(c: Curve<G>, p: Big)
  {
    && Modulus(c.f, p) && Int(p) > 1
    && Laws(c.group) && (forall g :: c.group.apply(g, c.group.unit) == g)
    && (forall g, h :: Commutes(c.group, g, h))
    && (forall a, b :: GroupLaw(c, a, b))
    && c.onCurve(INFINITY) && c.denote(INFINITY) == c.group.unit
  }

  ghost predicate Denotes<G(!new)>(c: Curve<G>, p: Big, a: Point, g: G)
  {
    Held(a, p) && c.onCurve(CoordsOf(a)) && c.denote(CoordsOf(a)) == g
  }

  method AddDenoted<G(!new)>(ghost c: Curve<G>, p: Big, a: Point, b: Point, ghost g: G, ghost h: G) returns (r: Point)
    requires CurveLaws(c, p) && Denotes(c, p, a, g) && Denotes(c, p, b, h)
    ensures Denotes(c, p, r, c.group.apply(g, h))
  {
    r := AddPoints(c.f, a, b, p);
    assert GroupLaw(c, CoordsOf(a), CoordsOf(b));
  }

  method DoubleDenoted<G(!new)>(ghost c: Curve<G>, p: Big, a: Point, ghost g: G) returns (r: Point)
    requires CurveLaws(c, p) && Denotes(c, p, a, g)
    ensures Denotes(c, p, r, c.group.apply(g, g))
  {
    r := Double(c.f, a, p);
    assert GroupLaw(c, CoordsOf(a), CoordsOf(a));
  }

  /** [m]g + [n]h. */
  ghost function Combination<G(!new)>(o: Op<G>, g: G, m: nat, h: G, n: nat): G
  {
    o.apply(Repeat(o, g, m), Repeat(o, h, n))
  }

  lemma Regroup<G(!new)>(o: Op<G>, a: G, b: G, x: G, y: G)
    requires Laws(o) && forall g, h :: Commutes(o, g, h)
    ensures o.apply(o.apply(a, b), o.apply(x, y)) == o.apply(o.apply(a, x), o.apply(b, y))
  {
    assert Associates(o, a, b, o.apply(x, y)) && Associates(o, b, x, y) && Commutes(o, b, x);
    assert Associates(o, x, b, y) && Associates(o, a, x, o.apply(b, y));
  }

  /** One bit of both scalars: double, then add g, h, both or nothing. */
  lemma CombinationBit<G(!new)>(o: Op<G>, g: G, m: nat, i: nat, h: G, n: nat, j: nat)
    requires Laws(o) && (forall x :: o.apply(x, o.unit) == x) && (forall x, y :: Commutes(o, x, y)) && i < 2 && j < 2
    ensures var double := o.apply(Combination(o, g, m, h, n), Combination(o, g, m, h, n));
            Combination(o, g, 2 * m + i, h, 2 * n + j) ==
              (if i == 1 && j == 1 then o.apply(double, o.apply(g, h))
               else if i == 1 then o.apply(double, g) else if j == 1 then o.apply(double, h) else double)
  {
    var a, b := Repeat(o, g, m), Repeat(o, h, n);
    Regroup(o, a, b, a, b);
    RepeatAdd(o, g, m, m);
    RepeatAdd(o, h, n, n);
    var a2, b2 := Repeat(o, g, 2 * m), Repeat(o, h, 2 * n);
    One(o, g, 2 * m);
    One(o, h, 2 * n);
    Regroup(o, a2, b2, g, h);
    assert Associates(o, a2, b2, g) && Commutes(o, b2, g) && Associates(o, a2, g, b2) && Associates(o, a2, b2, h);
  }

  lemma One<G(!new)>(o: Op<G>, g: G, n: nat)
    requires Laws(o) && o.apply(g, o.unit) == g
    ensures Repeat(o, g, n + 1) == o.apply(Repeat(o, g, n), g)
  {
    RepeatAdd(o, g, n, 1);
    assert Repeat(o, g, 1) == o.apply(g, Repeat(o, g, 0));
  }

  /** [u1]g + [u2]q in one pass over the bits of both scalars. */
  method TwinMultiply<G(!new)>(ghost c: Curve<G>, p: Big, base: Point, q: Point, u1: Big, u2: Big, ghost g: G, ghost h: G)
    returns (acc: Point)
    requires CurveLaws(c, p) && Denotes(c, p, base, g) && Denotes(c, p, q, h) && Canonical(u1) && Canonical(u2)
    ensures Denotes(c, p, acc, Combination(c.group, g, Int(u1), h, Int(u2)))
  {
    var both := AddDenoted(c, p, base, q, g, h);
    acc := Infinity(p);
    var n1 := Bits(u1);
    var n2 := Bits(u2);
    var n := if n1 < n2 then n2 else n1;
    Pow2Monotone(n1, n);
    Pow2Monotone(n2, n);
    NumberIsRead(u1, n);
    NumberIsRead(u2, n);
    acc := TwinLoop(c, p, acc, base, q, both, u1, u2, n, g, h, Reading(u1, n), Reading(u2, n));
  }

  /** m(i) is the number the bits of u from i up to n make. */
  ghost predicate Reads(u: Big, n: nat, m: nat -> nat)
  {
    m(n) == 0 && forall i: nat :: i < n ==> ReadsBit(u, m, i)
  }

  ghost predicate ReadsBit(u: Big, m: nat -> nat, i: nat)
  {
    m(i) == 2 * m(i + 1) + if Bit(u, i) then 1 else 0
  }

  ghost function Reading(u: Big, n: nat): nat -> nat
  {
    (i: nat) => BitsFrom(u, i, n)
  }

  lemma NumberIsRead(u: Big, n: nat)
    requires Int(u) < Pow2(n)
    ensures Reads(u, n, Reading(u, n)) && Reading(u, n)(0) == Int(u)
  {
    AllBits(u, n);
  }

  /** One pass over n bits of both scalars. */
  method TwinLoop<G(!new)>(ghost c: Curve<G>, p: Big, start: Point, base: Point, q: Point, both: Point, u1: Big, u2: Big,
                           n: nat, ghost g: G, ghost h: G, ghost m1: nat -> nat, ghost m2: nat -> nat) returns (acc: Point)
    requires CurveLaws(c, p) && Denotes(c, p, base, g) && Denotes(c, p, q, h) && Denotes(c, p, both, c.group.apply(g, h))
    requires Reads(u1, n, m1) && Reads(u2, n, m2) && Denotes(c, p, start, Combination(c.group, g, m1(n), h, m2(n)))
    ensures Denotes(c, p, acc, Combination(c.group, g, m1(0), h, m2(0)))
  {
    acc := start;
    var index: nat := n;
    while index > 0
      invariant index <= n && Denotes(c, p, acc, Combination(c.group, g, m1(index), h, m2(index)))
    {
      index := index - 1;
      assert ReadsBit(u1, m1, index) && ReadsBit(u2, m2, index);
      acc := TwinStep(c, p, acc, base, q, both, Bit(u1, index), Bit(u2, index), g, h, m1(index + 1), m2(index + 1));
    }
  }

  method TwinStep<G(!new)>(ghost c: Curve<G>, p: Big, acc: Point, base: Point, q: Point, both: Point, i: bool, j: bool,
                           ghost g: G, ghost h: G, ghost m: nat, ghost n: nat) returns (r: Point)
    requires CurveLaws(c, p) && Denotes(c, p, acc, Combination(c.group, g, m, h, n))
    requires Denotes(c, p, base, g) && Denotes(c, p, q, h) && Denotes(c, p, both, c.group.apply(g, h))
    ensures Denotes(c, p, r, Combination(c.group, g, 2 * m + if i then 1 else 0, h, 2 * n + if j then 1 else 0))
  {
    ghost var was := Combination(c.group, g, m, h, n);
    CombinationBit(c.group, g, m, if i then 1 else 0, h, n, if j then 1 else 0);
    r := DoubleDenoted(c, p, acc, was);
    ghost var double := c.group.apply(was, was);
    if i && j {
      r := AddDenoted(c, p, r, both, double, c.group.apply(g, h));
    } else if i {
      r := AddDenoted(c, p, r, base, double, g);
    } else if j {
      r := AddDenoted(c, p, r, q, double, h);
    }
  }

  // ---- verification ---------------------------------------------------------------------

  /** The curve's constants. */
  datatype Params = Params(p: Big, b: Big, n: Big, gx: Big, gy: Big)

  ghost predicate Sound<G(!new)>(k: Params, c: Curve<G>)
  {
    && CurveLaws(c, k.p)
    && Canonical(k.n) && Int(k.n) > 1 && Reduced(k.b, k.p) && Reduced(k.gx, k.p) && Reduced(k.gy, k.p)
    && c.onCurve(Coords(Int(k.gx), Int(k.gy), 1))
    && (forall x, y :: OnCurveLaw(k, c, x, y))
    && (forall a :: AffineLaw(k, c, a))
  }

  /** Whether y^2 = x^3 - 3x + b. */
  ghost predicate Satisfies(f: Residues, b: int, x: int, y: int)
  {
    f.mul(y, y) == f.add(f.sub(f.mul(f.mul(x, x), x), f.add(x, f.add(x, x))), b)
  }

  ghost predicate OnCurveLaw<G(!new)>(k: Params, c: Curve<G>, x: int, y: int)
  {
    0 <= x < Int(k.p) && 0 <= y < Int(k.p) && Satisfies(c.f, Int(k.b), x, y) ==> c.onCurve(Coords(x, y, 1))
  }

  /** Infinity is z = 0; otherwise x/z^2, through z^(p-2), is the affine x. */
  ghost predicate AffineLaw<G(!new)>(k: Params, c: Curve<G>, a: Coords)
  {
    c.onCurve(a) && 0 <= a.z < Int(k.p) && Int(k.p) >= 2 ==>
      && (a.z == 0 <==> c.denote(a) == c.group.unit)
      && (a.z != 0 ==> var zi := PowMod(a.z, Int(k.p) - 2, Int(k.p)); c.f.mul(a.x, c.f.mul(zi, zi)) == c.affineX(c.denote(a)))
  }

  method OnCurve<G(!new)>(ghost c: Curve<G>, k: Params, x: Big, y: Big) returns (ok: bool)
    requires Sound(k, c) && Canonical(x) && Canonical(y)
    ensures ok <==> Int(x) < Int(k.p) && Int(y) < Int(k.p) && Satisfies(c.f, Int(k.b), Int(x), Int(y))
  {
    var ox := Cmp(x, k.p);
    var oy := Cmp(y, k.p);
    if ox != Less || oy != Less {
      return false;
    }
    var left := FMul(c.f, y, y, k.p);
    var xx := FMul(c.f, x, x, k.p);
    var x3 := FMul(c.f, xx, x, k.p);
    var two := FAdd(c.f, x, x, k.p);
    var three := FAdd(c.f, x, two, k.p);
    var d := FSub(c.f, x3, three, k.p);
    var right := FAdd(c.f, d, k.b, k.p);
    var o := Cmp(left, right);
    ok := o == Equal;
  }

  /** The leftmost bits of the digest, as many as the order has. */
  function Cut(digest: seq<u8>, bits: nat): nat
  {
    if 8 * |digest| > bits then ShiftRight(Bytes.BigEndian(digest), 8 * |digest| - bits) else Bytes.BigEndian(digest)
  }

  method CutDigest(digest: seq<u8>, bits: nat) returns (e: Big)
    ensures Canonical(e) && Int(e) == Cut(digest, bits)
  {
    e := FromBe(digest);
    var length := 8 * |digest|;
    if length > bits {
      var shift := length - bits;
      var truncated := Big([]);
      var index := length;
      Bytes.LittleBound(Bytes.Reverse(digest));
      OneAndZero();
      while index > shift
        invariant shift <= index <= length && Canonical(truncated)
        invariant Int(truncated) == BitsFrom(e, index, length)
      {
        index := index - 1;
        truncated := Bignum.Add(truncated, truncated);
        if Bit(e, index) {
          truncated := Bignum.Add(truncated, Big([1]));
        }
      }
      BitsFromIs(e, shift, length);
      e := truncated;
    }
  }

  /** Affine x; None exactly at infinity. */
  method AffineX<G(!new)>(ghost c: Curve<G>, k: Params, a: Point, ghost g: G) returns (x: Option<Big>)
    requires Sound(k, c) && Denotes(c, k.p, a, g)
    ensures x.None? <==> g == c.group.unit
    ensures x.Some? ==> Canonical(x.value) && Int(x.value) == c.affineX(g)
  {
    assert AffineLaw(k, c, CoordsOf(a));
    var zi := ModInversePrime(a.z, k.p);
    ModUnique(Int(a.z), Int(k.p), 0, Int(a.z));
    if zi.None? {
      return None;
    }
    var z2 := FMul(c.f, zi.value, zi.value, k.p);
    var r := FMul(c.f, a.x, z2, k.p);
    x := Some(r);
  }

  /** What section 6.4 of FIPS 186-4 accepts, for public key (x, y). */
  ghost predicate Accepts<G(!new)>(c: Curve<G>, k: Params, x: nat, y: nat, digest: seq<u8>, bits: nat, r: nat, s: nat)
    requires Int(k.n) > 1
  {
    && x < Int(k.p) && y < Int(k.p) && Satisfies(c.f, Int(k.b), x, y)
    && 0 < r < Int(k.n) && 0 < s < Int(k.n)
    && var w := PowMod(s, Int(k.n) - 2, Int(k.n));
       var point := SumPoint(c, k, Coords(x, y, 1), MulMod(Cut(digest, bits) % Int(k.n), w, Int(k.n)), MulMod(r, w, Int(k.n)));
       point != c.group.unit && c.affineX(point) % Int(k.n) == r
  }

  /** [u1]G + [u2]Q. */
  ghost function SumPoint<G(!new)>(c: Curve<G>, k: Params, q: Coords, u1: int, u2: int): G
  {
    Combination(c.group, c.denote(Coords(Int(k.gx), Int(k.gy), 1)), if u1 < 0 then 0 else u1,
                c.denote(q), if u2 < 0 then 0 else u2)
  }

  method Verify<G(!new)>(ghost c: Curve<G>, k: Params, qx: seq<u8>, qy: seq<u8>, digest: seq<u8>, rb: seq<u8>, sb: seq<u8>,
                         ghost bits: nat) returns (ok: bool)
    requires Sound(k, c) && Pow2(bits) > Int(k.n) && bits > 0 && Pow2(bits - 1) <= Int(k.n)
    ensures ok <==> Accepts(c, k, Bytes.BigEndian(qx), Bytes.BigEndian(qy), digest, bits, Bytes.BigEndian(rb), Bytes.BigEndian(sb))
  {
    var x := FromBe(qx);
    var y := FromBe(qy);
    var on := OnCurve(c, k, x, y);
    if !on {
      return false;
    }
    var r := FromBe(rb);
    var s := FromBe(sb);
    ZeroIsEmpty(r);
    ZeroIsEmpty(s);
    var or := Cmp(r, k.n);
    var os := Cmp(s, k.n);
    if r.limbs == [] || s.limbs == [] || or != Less || os != Less {
      return false;
    }
    var nBits := Bits(k.n);
    SameBits(Int(k.n), nBits, bits);
    var e := CutDigest(digest, nBits);
    var u1, u2 := Multipliers(k.n, e, r, s);
    ok := CheckPoint(c, k, x, y, u1, u2, r);
  }

  /** What G and Q are multiplied by. */
  method Multipliers(n: Big, e: Big, r: Big, s: Big) returns (u1: Big, u2: Big)
    requires Canonical(n) && Canonical(e) && Canonical(r) && Canonical(s) && 0 < Int(s) < Int(n)
    ensures Canonical(u1) && Canonical(u2)
    ensures var w := PowMod(Int(s), Int(n) - 2, Int(n));
            Int(u1) == MulMod(Int(e) % Int(n), w, Int(n)) && Int(u2) == MulMod(Int(r), w, Int(n))
  {
    ModUnique(Int(s), Int(n), 0, Int(s));
    ZeroIsEmpty(n);
    var w := ModInversePrime(s, n);
    var reduced := Rem(e, n);
    u1 := ModMul(reduced, w.value, n);
    u2 := ModMul(r, w.value, n);
  }

  /** The last step: the affine x of [u1]G + [u2]Q against r. */
  method CheckPoint<G(!new)>(ghost c: Curve<G>, k: Params, x: Big, y: Big, u1: Big, u2: Big, r: Big) returns (ok: bool)
    requires Sound(k, c) && Reduced(x, k.p) && Reduced(y, k.p) && Satisfies(c.f, Int(k.b), Int(x), Int(y))
    requires Canonical(u1) && Canonical(u2) && Canonical(r)
    ensures var point := SumPoint(c, k, Coords(Int(x), Int(y), 1), Int(u1), Int(u2));
            ok <==> point != c.group.unit && c.affineX(point) % Int(k.n) == Int(r)
  {
    OneAndZero();
    assert OnCurveLaw(k, c, Int(x), Int(y));
    var base, q := Point(k.gx, k.gy, Big([1])), Point(x, y, Big([1]));
    ghost var g, h := c.denote(CoordsOf(base)), c.denote(CoordsOf(q));
    var sum := TwinMultiply(c, k.p, base, q, u1, u2, g, h);
    var ax := AffineX(c, k, sum, Combination(c.group, g, Int(u1), h, Int(u2)));
    if ax.None? {
      return false;
    }
    ZeroIsEmpty(k.n);
    var reduced := Rem(ax.value, k.n);
    var o := Cmp(reduced, r);
    ok := o == Equal;
  }

  lemma SameBits(n: nat, a: nat, b: nat)
    requires n > 0 && n < Pow2(a) && n < Pow2(b) && (a > 0 ==> Pow2(a - 1) <= n) && b > 0 && Pow2(b - 1) <= n
    ensures a == b
  {
    if a < b { Pow2Monotone(a, b - 1); }
    if b < a { Pow2Monotone(b, a - 1); }
  }

  // ---- a signature that was made verifies -------------------------------------------------

  /** With d the secret behind Q = [d]G, the signing equation s t = e + r d modulo
      the order, and s^(n-2) the inverse of s, the point recovered is [t]G. */
  lemma SigningEquation<G(!new)>(o: Op<G>, g: G, n: nat, d: nat, t: nat, e: nat, r: nat, s: nat, w: nat)
    requires Laws(o) && o.apply(g, o.unit) == g && n > 1 && Repeat(o, g, n) == o.unit
    requires (s * t) % n == (e + r * d) % n && (s * w) % n == 1
    ensures Combination(o, g, MulMod(e % n, w, n), Repeat(o, g, d), MulMod(r, w, n)) == Repeat(o, g, t)
  {
    var u1, u2 := MulMod(e % n, w, n), MulMod(r, w, n);
    Recovers(n, d, t, e, r, s, w, u1, u2);
    CombinationIs(o, g, n, d, u1, u2, t);
  }

  lemma CombinationIs<G(!new)>(o: Op<G>, g: G, n: nat, d: nat, u1: nat, u2: nat, t: nat)
    requires Laws(o) && n > 0 && Repeat(o, g, n) == o.unit && (u1 + d * u2) % n == t % n
    ensures Combination(o, g, u1, Repeat(o, g, d), u2) == Repeat(o, g, t)
  {
    CombinationOfMultiples(o, g, u1, d, u2);
    SameMultiple(o, g, n, u1 + d * u2, t);
  }

  lemma {:induction false} PowModNatural(x: nat, e: nat, m: nat)
    requires m > 0
    ensures 0 <= PowMod(x, e, m)
  {
  }

  /** Every signature made with the secret key behind the public key is accepted. */
  lemma SignedIsAccepted<G(!new)>(c: Curve<G>, k: Params, x: nat, y: nat, digest: seq<u8>, bits: nat, r: nat, s: nat, d: nat, t: nat)
    requires Sound(k, c) && x < Int(k.p) && y < Int(k.p) && Satisfies(c.f, Int(k.b), x, y)
    requires var n, g := Int(k.n), c.denote(Coords(Int(k.gx), Int(k.gy), 1));
             && Repeat(c.group, g, n) == c.group.unit && c.denote(Coords(x, y, 1)) == Repeat(c.group, g, d)
             && 0 < r < n && 0 < s < n && (s * PowMod(s, n - 2, n)) % n == 1
             && (s * t) % n == (Cut(digest, bits) + r * d) % n
             && Repeat(c.group, g, t) != c.group.unit && c.affineX(Repeat(c.group, g, t)) % n == r
    ensures Accepts(c, k, x, y, digest, bits, r, s)
  {
    var n := Int(k.n);
    var w := PowMod(s, n - 2, n);
    PowModNatural(s, n - 2, n);
    SigningEquation(c.group, c.denote(Coords(Int(k.gx), Int(k.gy), 1)), n, d, t, Cut(digest, bits), r, s, w);
    NaturalMod(Cut(digest, bits) % n, w, n);
    NaturalMod(r, w, n);
  }

  lemma NaturalMod(x: int, w: int, n: nat)
    requires n > 0
    ensures 0 <= MulMod(x, w, n)
  {
  }

  lemma CombinationOfMultiples<G(!new)>(o: Op<G>, g: G, m: nat, d: nat, n: nat)
    requires Laws(o)
    ensures Combination(o, g, m, Repeat(o, g, d), n) == Repeat(o, g, m + d * n)
  {
    RepeatRepeat(o, g, d, n);
    RepeatAdd(o, g, m, d * n);
  }

  lemma SameMultiple<G(!new)>(o: Op<G>, g: G, n: nat, x: nat, y: nat)
    requires Laws(o) && n > 0 && Repeat(o, g, n) == o.unit && x % n == y % n
    ensures Repeat(o, g, x) == Repeat(o, g, y)
  {
    RepeatModulo(o, g, n, x);
    RepeatModulo(o, g, n, y);
  }

  /** Multiples of an element of order dividing n repeat with period n. */
  lemma RepeatModulo<G(!new)>(o: Op<G>, g: G, n: nat, m: nat)
    requires Laws(o) && n > 0 && Repeat(o, g, n) == o.unit
    ensures Repeat(o, g, m % n) == Repeat(o, g, m)
  {
    QuotientRemainder(m, n);
    RepeatRepeat(o, g, n, m / n);
    UnitRepeats(o, m / n);
    RepeatAdd(o, g, n * (m / n), m % n);
    UnitLeft(o, g, m % n);
  }

  lemma {:induction false} UnitRepeats<G(!new)>(o: Op<G>, n: nat)
    requires Laws(o)
    ensures Repeat(o, o.unit, n) == o.unit
  {
    if n > 0 { UnitRepeats(o, n - 1); }
  }

  /** u1 + d u2 = (e + r d) w = s t w = t modulo n. */
  lemma Recovers(n: nat, d: nat, t: nat, e: nat, r: nat, s: nat, w: nat, u1: nat, u2: nat)
    requires n > 1 && (s * t) % n == (e + r * d) % n && (s * w) % n == 1
    requires u1 == MulMod(e % n, w, n) && u2 == MulMod(r, w, n)
    ensures (u1 + d * u2) % n == t % n
  {
    MulModLeft(e, w, n);
    var a, b := e * w, r * w;
    AddMod(a, d * (b % n), n);
    MulModRight(d, b, n);
    AddMod(a, d * b, n);
    assert a + d * b == (e + r * d) * w;
    MulModLeft(e + r * d, w, n);
    MulModLeft(s * t, w, n);
    assert (s * t) * w == t * (s * w);
    MulModRight(t, s * w, n);
  }

  lemma AddMod(x: int, y: int, m: int)
    requires m > 0
    ensures (x % m + y) % m == (x + y) % m == (x + y % m) % m
  {
    QuotientRemainder(x, m);
    QuotientRemainder(y, m);
    ShiftMod(x % m + y, x / m, m);
    ShiftMod(x + y % m, y / m, m);
  }
}
