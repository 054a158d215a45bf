/** The Montgomery ladder with its deferred, masked swap (x25519.rs), over the limb
    field.  The curve's differential addition law is a parameter. */
module X25519 {
  import opened Options
  import opened Words
  import opened Bytes
  import opened Field25519
  import opened Monoid

  /** A projective u-coordinate x : z, as residues. */
  datatype Ratio = Ratio(x: nat, z: nat)

  const A24: nat := 121665

  /** One ladder step of section 5 of RFC 7748, modulo P: the double of s, and the
      sum of s and t. */
  function Doubled(s: Ratio): Ratio
  {
    var aa, bb := Square((s.x + s.z) % P), Square((s.x - s.z) % P);
    DoubleOf(aa, bb, (aa - bb) % P)
  }

  function DoubleOf(aa: nat, bb: nat, e: nat): Ratio
  {
    Ratio(Times(aa, bb), Times(e, (aa + Times(A24, e)) % P))
  }

  function Summed(x1: nat, s: Ratio, t: Ratio): Ratio
  {
    var da := Times((t.x - t.z) % P, (s.x + s.z) % P);
    var cb := Times((t.x + t.z) % P, (s.x - s.z) % P);
    SumOf(x1, da, cb)
  }

  function SumOf(x1: nat, da: nat, cb: nat): Ratio
  {
    Ratio(Square((da + cb) % P), Times(x1, Square((da - cb) % P)))
  }

  function Square(x: nat): nat
  {
    Times(x, x)
  }

  /** A Montgomery curve: its group, which ratios stand for which elements, and an
      element's u-coordinate. */
  datatype Curve<!G(!new)> = Curve(group: Op<G>, stands: (Ratio, G) -> bool, u: G -> nat)

  /** s and t differ by the point, either way round. */
  ghost predicate Neighbours<G(!new)>(c: Curve<G>, point: G, g: G, h: G)
  {
    h == c.group.apply(point, g) || g == c.group.apply(point, h)
  }

  ghost predicate StepLaw<G(!new)>(c: Curve<G>, point: G, x1: nat, s: Ratio, t: Ratio, g: G, h: G)
  {
    c.stands(s, g) && c.stands(t, h) && Neighbours(c, point, g, h) ==>
      c.stands(Doubled(s), c.group.apply(g, g)) && c.stands(Summed(x1, s, t), c.group.apply(g, h))
  }

  ghost predicate AffineLaw<G(!new)>(c: Curve<G>, s: Ratio, g: G)
  {
    c.stands(s, g) ==> Times(s.x, Power(s.z, P - 2)) == c.u(g)
  }

  /** What is taken from the curve, for the point with u-coordinate x1. */
  ghost predicate LadderLaws<G(!new)>(c: Curve<G>, point: G, x1: nat)
  {
    && Laws(c.group)
    && c.stands(Ratio(1, 0), c.group.unit) && c.stands(Ratio(x1, 1), Repeat(c.group, point, 1))
    && (forall s, t, g, h :: StepLaw(c, point, x1, s, t, g, h))
    && (forall s, g :: AffineLaw(c, s, g))
  }

  // ---- the ladder -----------------------------------------------------------------

  datatype Pair = Pair(x: Fe, z: Fe)

  predicate Held(p: Pair)
  {
    Bounded(p.x) && Bounded(p.z)
  }

  function RatioOf(p: Pair): Ratio
  {
    Ratio(Residue(p.x), Residue(p.z))
  }

  method SwapPairs(a: Pair, b: Pair, choice: u64) returns (p: Pair, q: Pair)
    requires choice <= 1
    ensures (p, q) == if choice == 1 then (b, a) else (a, b)
  {
    var px, qx := Swap(a.x, b.x, choice);
    var pz, qz := Swap(a.z, b.z, choice);
    p, q := Pair(px, pz), Pair(qx, qz);
  }

  method Step(x1: Fe, a24: Fe, s: Pair, t: Pair) returns (double: Pair, sum: Pair)
    requires Bounded(x1) && Bounded(a24) && Residue(a24) == A24 && Held(s) && Held(t)
    ensures Held(double) && Held(sum)
    ensures RatioOf(double) == Doubled(RatioOf(s)) && RatioOf(sum) == Summed(Residue(x1), RatioOf(s), RatioOf(t))
  {
    var a := Add(s.x, s.z);
    var b := Sub(s.x, s.z);
    var aa := Mul(a, a);
    var bb := Mul(b, b);
    var e := Sub(aa, bb);
    var da, cb := Cross(t, a, b);
    sum := SumPair(x1, da, cb);
    double := DoublePair(a24, aa, bb, e);
  }

  method Cross(t: Pair, a: Fe, b: Fe) returns (da: Fe, cb: Fe)
    requires Held(t) && Bounded(a) && Bounded(b)
    ensures Bounded(da) && Residue(da) == Times((Residue(t.x) - Residue(t.z)) % P, Residue(a))
    ensures Bounded(cb) && Residue(cb) == Times((Residue(t.x) + Residue(t.z)) % P, Residue(b))
  {
    var c := Add(t.x, t.z);
    var d := Sub(t.x, t.z);
    da := Mul(d, a);
    cb := Mul(c, b);
  }

  method SumPair(x1: Fe, da: Fe, cb: Fe) returns (sum: Pair)
    requires Bounded(x1) && Bounded(da) && Bounded(cb)
    ensures Held(sum)
    ensures RatioOf(sum) == SumOf(Residue(x1), Residue(da), Residue(cb))
  {
    var plus := Add(da, cb);
    var x3 := Mul(plus, plus);
    var minus := Sub(da, cb);
    var square := Mul(minus, minus);
    var z3 := Mul(x1, square);
    sum := Pair(x3, z3);
  }

  method DoublePair(a24: Fe, aa: Fe, bb: Fe, e: Fe) returns (double: Pair)
    requires Bounded(a24) && Residue(a24) == A24 && Bounded(aa) && Bounded(bb) && Bounded(e)
    ensures Held(double)
    ensures RatioOf(double) == DoubleOf(Residue(aa), Residue(bb), Residue(e))
  {
    var x2 := Mul(aa, bb);
    var scaled := Mul(a24, e);
    var inner := Add(aa, scaled);
    var z2 := Mul(e, inner);
    double := Pair(x2, z2);
  }

  /** The pair stands for [n]P and [n+1]P, the other way round while a swap is pending. */
  ghost predicate Rungs<G(!new)>(c: Curve<G>, point: G, n: nat, s: Pair, t: Pair, swap: u64)
  {
    && Held(s) && Held(t) && swap <= 1
    && c.stands(RatioOf(s), Repeat(c.group, point, n + swap as int))
    && c.stands(RatioOf(t), Repeat(c.group, point, n + 1 - swap as int))
  }

  /** One step takes the rungs n and n+1 to 2n+bit and the one above, with the new
      bit's swap pending. */
  method LadderStep<G(!new)>(ghost c: Curve<G>, ghost point: G, x1: Fe, a24: Fe, s: Pair, t: Pair, swap: u64, bit: u64,
                             ghost n: nat) returns (double: Pair, sum: Pair)
    requires Bounded(x1) && LadderLaws(c, point, Residue(x1)) && Bounded(a24) && Residue(a24) == A24
    requires Rungs(c, point, n, s, t, swap) && bit <= 1
    ensures Rungs(c, point, 2 * n + bit as int, double, sum, bit)
  {
    var now := if swap == bit then 0 else 1;
    var p, q := SwapPairs(s, t, now);
    assert Rungs(c, point, n, p, q, bit);
    double, sum := Step(x1, a24, p, q);
    var lo, hi := n + bit as int, n + 1 - bit as int;
    assert StepLaw(c, point, Residue(x1), RatioOf(p), RatioOf(q), Repeat(c.group, point, lo), Repeat(c.group, point, hi));
    RepeatAdd(c.group, point, lo, lo);
    RepeatAdd(c.group, point, lo, hi);
  }

  /** The scalar with the bits cleared and set that section 5 of RFC 7748 says. */
  function Clamp(scalar: seq<u8>): (k: seq<u8>)
    requires |scalar| == 32
    ensures |k| == 32 && k[31] < 128
  {
    scalar[0 := scalar[0] / 8 * 8][31 := scalar[31] % 64 + 64]
  }

  lemma TopBitClear(k: seq<u8>)
    requires |k| == 32 && k[31] < 128
    ensures BitsFrom(k, 255) == 0
  {
    assert BitsFrom(k, 256) == 0;
    assert Pow2(7) == 128;
    assert BitAt(k, 255) == 0;
  }

  /** The coordinate an encoding states: its top bit ignored, modulo P. */
  function Coordinate(u: seq<u8>): nat
  {
    Little(u) % Pow2(255) % P
  }

  /** The u-coordinate of the clamped scalar's multiple, for every scalar and point. */
  method Compute<G(!new)>(ghost c: Curve<G>, ghost point: G, scalar: seq<u8>, u: seq<u8>) returns (out: seq<u8>)
    requires |scalar| == 32 && |u| == 32 && LadderLaws(c, point, Coordinate(u))
    ensures |out| == 32 && out == LittleBytes(c.u(Repeat(c.group, point, Little(Clamp(scalar)))), 32)
  {
    var x1 := FromBytes(u);
    var s := Ladder(c, point, x1, Clamp(scalar));
    out := Affine(c, s, Repeat(c.group, point, Little(Clamp(scalar))));
  }

  method Ladder<G(!new)>(ghost c: Curve<G>, ghost point: G, x1: Fe, k: seq<u8>) returns (s: Pair)
    requires |k| == 32 && k[31] < 128 && Bounded(x1) && LadderLaws(c, point, Residue(x1))
    ensures Held(s) && c.stands(RatioOf(s), Repeat(c.group, point, Little(k)))
  {
    s := Pair(ONE, ZERO);
    var t := Pair(x1, ONE);
    var a24 := Fe(121665, 0, 0, 0, 0);
    var swap: u64;
    TopBitClear(k);
    Start(c, point, x1, s, t);
    ghost var m := Reading(k);
    s, t, swap := Climb(c, point, x1, a24, k, s, t, m);
    AllBits(k);
    s, t := SwapPairs(s, t, swap);
  }

  /** m(i) is the number the bits of k from i up make, below the top bit. */
  ghost predicate Reads(k: seq<u8>, m: nat -> nat)
    requires |k| == 32
  {
    m(255) == 0 && forall i: nat :: i < 255 ==> ReadsBit(k, m, i)
  }

  ghost predicate ReadsBit(k: seq<u8>, m: nat -> nat, i: nat)
    requires |k| == 32 && i < 255
  {
    m(i) == 2 * m(i + 1) + BitAt(k, i) as int
  }

  ghost function Reading(k: seq<u8>): nat -> nat
    requires |k| == 32
  {
    (i: nat) => if i <= 256 then BitsFrom(k, i) else 0
  }

  /** All 255 steps of the ladder. */
  method Climb<G(!new)>(ghost c: Curve<G>, ghost point: G, x1: Fe, a24: Fe, k: seq<u8>, first: Pair, second: Pair,
                        ghost m: nat -> nat) returns (s: Pair, t: Pair, swap: u64)
    requires |k| == 32 && Reads(k, m) && Bounded(x1) && LadderLaws(c, point, Residue(x1))
    requires Bounded(a24) && Residue(a24) == A24 && Rungs(c, point, 0, first, second, 0)
    ensures Rungs(c, point, m(0), s, t, swap)
  {
    s, t, swap := first, second, 0;
    var i: nat := 255;
    while i > 0
      invariant i <= 255 && Rungs(c, point, m(i), s, t, swap)
    {
      i := i - 1;
      assert ReadsBit(k, m, i);
      var bit := BitAt(k, i);
      s, t := LadderStep(c, point, x1, a24, s, t, swap, bit, m(i + 1));
      swap := bit;
    }
  }

  lemma Start<G(!new)>(c: Curve<G>, point: G, x1: Fe, s: Pair, t: Pair)
    requires Bounded(x1) && LadderLaws(c, point, Residue(x1)) && s == Pair(ONE, ZERO) && t == Pair(x1, ONE)
    ensures Rungs(c, point, 0, s, t, 0)
  {
    assert Residue(ONE) == 1 && Residue(ZERO) == 0;
  }

  method Affine<G(!new)>(ghost c: Curve<G>, s: Pair, ghost g: G) returns (out: seq<u8>)
    requires Held(s) && c.stands(RatioOf(s), g) && forall r, h :: AffineLaw(c, r, h)
    ensures |out| == 32 && out == LittleBytes(c.u(g), 32)
  {
    assert AffineLaw(c, RatioOf(s), g);
    var zi := Invert(s.z);
    var x := Mul(s.x, zi);
    out := ToBytes(x);
  }

  /** The shared secret, refused exactly when it is all zeros. */
  method SharedSecret<G(!new)>(ghost c: Curve<G>, ghost point: G, scalar: seq<u8>, peer: seq<u8>) returns (r: Option<seq<u8>>)
    requires |scalar| == 32 && |peer| == 32 && LadderLaws(c, point, Coordinate(peer))
    ensures var shared := LittleBytes(c.u(Repeat(c.group, point, Little(Clamp(scalar)))), 32);
            r == if shared == seq(32, i => 0) then None else Some(shared)
  {
    var shared := Compute(c, point, scalar, peer);
    r := if shared == seq(32, i => 0) then None else Some(shared);
  }
}
