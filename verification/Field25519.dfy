/** Arithmetic modulo p = 2^255 - 19 in five 51-bit limbs (field.rs). */
module Field25519 {
  import opened Words
  import opened Bytes

  const B51: int := 0x8_0000_0000_0000
  const B102: int := B51 * B51
  const B153: int := B102 * B51
  const B204: int := B153 * B51
  const P: int := 0x7fff_ffff_ffff_ffff_ffff_ffff_ffff_ffff_ffff_ffff_ffff_ffff_ffff_ffff_ffff_ffed

  lemma LimbsSpanP()
    ensures B204 * B51 == P + 19
  {
  }

  datatype Fe = Fe(l0: u64, l1: u64, l2: u64, l3: u64, l4: u64)

  const ZERO := Fe(0, 0, 0, 0, 0)
  const ONE := Fe(1, 0, 0, 0, 0)

  /** The integer the limbs denote; the field element is this modulo P. */
  function Value(f: Fe): nat
  {
    Weigh(f.l0 as int, f.l1 as int, f.l2 as int, f.l3 as int, f.l4 as int)
  }

  function Weigh(a: int, b: int, c: int, d: int, e: int): int
  {
    a + B51 * b + B102 * c + B153 * d + B204 * e
  }

  function Residue(f: Fe): (r: nat)
    ensures r < P
  {
    Value(f) % P
  }

  /** The bound every operation keeps: limbs below 2^52. */
  predicate Bounded(f: Fe)
  {
    f.l0 < 0x10_0000_0000_0000 && f.l1 < 0x10_0000_0000_0000 && f.l2 < 0x10_0000_0000_0000 &&
    f.l3 < 0x10_0000_0000_0000 && f.l4 < 0x10_0000_0000_0000
  }

  /** What carry leaves: limbs below 2^51, but for a small carry into limb 0. */
  predicate Carried(f: Fe)
  {
    f.l0 < 0x8_0000_0000_0100 && f.l1 < 0x8_0000_0000_0000 && f.l2 < 0x8_0000_0000_0000 &&
    f.l3 < 0x8_0000_0000_0000 && f.l4 < 0x8_0000_0000_0000
  }

  predicate Loose(f: Fe)
  {
    f.l0 < 0x40_0000_0000_0000 && f.l1 < 0x40_0000_0000_0000 && f.l2 < 0x40_0000_0000_0000 &&
    f.l3 < 0x40_0000_0000_0000 && f.l4 < 0x40_0000_0000_0000
  }

  /** Adding a multiple of P changes no residue. */
  lemma AddMultiple(x: int, k: int)
    ensures (x + k * P) % P == x % P
  {
    ModUnique(x + k * P, P, x / P + k, x % P);
  }

  method Carry(f: Fe) returns (r: Fe)
    requires Loose(f)
    ensures Carried(r) && Residue(r) == Residue(f)
  {
    var Fe(h0, h1, h2, h3, h4) := f;
    var c := h0 / 0x8_0000_0000_0000;
    h0 := h0 % 0x8_0000_0000_0000;
    ghost var c0 := c as int;
    h1 := h1 + c;
    c := h1 / 0x8_0000_0000_0000;
    h1 := h1 % 0x8_0000_0000_0000;
    ghost var c1 := c as int;
    h2 := h2 + c;
    c := h2 / 0x8_0000_0000_0000;
    h2 := h2 % 0x8_0000_0000_0000;
    ghost var c2 := c as int;
    h3 := h3 + c;
    c := h3 / 0x8_0000_0000_0000;
    h3 := h3 % 0x8_0000_0000_0000;
    ghost var c3 := c as int;
    h4 := h4 + c;
    c := h4 / 0x8_0000_0000_0000;
    h4 := h4 % 0x8_0000_0000_0000;
    h0 := h0 + 19 * c;
    r := Fe(h0, h1, h2, h3, h4);
    CarriedAround(f.l0 as int, f.l1 as int, f.l2 as int, f.l3 as int, f.l4 as int, r, c0, c1, c2, c3, c as int);
  }

  /** A carry out of each limb into the next, the last one times 19 into the first. */
  lemma CarriedAround(u0: int, u1: int, u2: int, u3: int, u4: int, r: Fe, c0: int, c1: int, c2: int, c3: int, c4: int)
    requires u0 + 19 * c4 == r.l0 as int + B51 * c0 && u1 + c0 == r.l1 as int + B51 * c1
    requires u2 + c1 == r.l2 as int + B51 * c2 && u3 + c2 == r.l3 as int + B51 * c3
    requires u4 + c3 == r.l4 as int + B51 * c4
    ensures Weigh(u0, u1, u2, u3, u4) % P == Residue(r)
  {
    LimbsSpanP();
    assert Weigh(u0, u1, u2, u3, u4) == Value(r) + c4 * P;
    AddMultiple(Value(r), c4);
  }

  method Add(a: Fe, b: Fe) returns (r: Fe)
    requires Bounded(a) && Bounded(b)
    ensures Bounded(r) && Residue(r) == (Residue(a) + Residue(b)) % P
  {
    var sum := Fe(a.l0 + b.l0, a.l1 + b.l1, a.l2 + b.l2, a.l3 + b.l3, a.l4 + b.l4);
    r := Carry(sum);
    assert Value(sum) == Value(a) + Value(b);
    SumResidue(Value(a), Value(b));
  }

  lemma SumResidue(x: int, y: int)
    ensures (x + y) % P == (x % P + y % P) % P
    ensures (x - y) % P == (x % P - y % P) % P
  {
    assert x + y == (x % P + y % P) + (x / P + y / P) * P;
    AddMultiple(x % P + y % P, x / P + y / P);
    assert x - y == (x % P - y % P) + (x / P - y / P) * P;
    AddMultiple(x % P - y % P, x / P - y / P);
  }

  lemma ProductResidue(x: int, y: int)
    ensures (x * y) % P == ((x % P) * (y % P)) % P
  {
    var k := x / P * y + (x % P) * (y / P);
    assert x == x / P * P + x % P && y == y / P * P + y % P;
    assert x * y == (x / P * P) * y + (x % P) * y;
    assert (x % P) * y == (x % P) * (y / P * P) + (x % P) * (y % P);
    assert (x / P * P) * y == (x / P * y) * P;
    assert (x % P) * (y / P * P) == ((x % P) * (y / P)) * P;
    AddMultiple((x % P) * (y % P), k);
  }

  /** a + 4p - b, so that no limb goes below zero. */
  method Sub(a: Fe, b: Fe) returns (r: Fe)
    requires Bounded(a) && Bounded(b)
    ensures Bounded(r) && Residue(r) == (Residue(a) - Residue(b)) % P
  {
    var x := Carry(a);
    var y := Carry(b);
    var h := Fe(x.l0 + 0x1f_ffff_ffff_ffb4 - y.l0,
                x.l1 + 0x1f_ffff_ffff_fffc - y.l1,
                x.l2 + 0x1f_ffff_ffff_fffc - y.l2,
                x.l3 + 0x1f_ffff_ffff_fffc - y.l3,
                x.l4 + 0x1f_ffff_ffff_fffc - y.l4);
    r := Carry(h);
    assert Value(h) == Value(x) - Value(y) + 4 * P by { LimbsSpanP(); }
    AddMultiple(Value(x) - Value(y), 4);
    SumResidue(Value(x), Value(y));
  }

  method Neg(a: Fe) returns (r: Fe)
    requires Bounded(a)
    ensures Bounded(r) && Residue(r) == (0 - Residue(a) as int) % P
  {
    r := Sub(ZERO, a);
  }

  // ---- multiplication -------------------------------------------------------

  function Wide(a: u128, b: u128): (r: u128)
    requires a < 0x10_0000_0000_0000 && b < 0x100_0000_0000_0000
    ensures r as int == a as int * b as int
    ensures r < 0x1000_0000_0000_0000_0000_0000_0000
    ensures b < 0x10_0000_0000_0000 ==> r < 0x100_0000_0000_0000_0000_0000_0000
  {
    ProductBound(a as int, b as int, 0xf_ffff_ffff_ffff, 0xff_ffff_ffff_ffff);
    if b < 0x10_0000_0000_0000 then
      ProductBound(a as int, b as int, 0xf_ffff_ffff_ffff, 0xf_ffff_ffff_ffff);
      a * b
    else a * b
  }

  /** A product with a factor that was multiplied by 19 beforehand. */
  function Wide19(a: u128, b19: u128, ghost b: int): (r: u128)
    requires a < 0x10_0000_0000_0000 && b19 < 0x100_0000_0000_0000 && b19 as int == 19 * b
    ensures r as int == 19 * (a as int * b)
    ensures r < 0x1000_0000_0000_0000_0000_0000_0000
  {
    assert a as int * (19 * b) == 19 * (a as int * b);
    Wide(a, b19)
  }

  lemma Spread(x: int, b0: int, b1: int, b2: int, b3: int, b4: int)
    ensures x * Weigh(b0, b1, b2, b3, b4) == Weigh(x * b0, x * b1, x * b2, x * b3, x * b4)
  {
    assert x * (B51 * b1) == B51 * (x * b1);
    assert x * (B102 * b2) == B102 * (x * b2);
    assert x * (B153 * b3) == B153 * (x * b3);
    assert x * (B204 * b4) == B204 * (x * b4);
  }

  /** Rows of partial products added by columns, the columns past 2^255 folded
      back times 19: the sum changes by a multiple of P. */
  lemma FoldRows(p: seq<seq<int>>) returns (k: int)
    requires |p| == 5 && forall i :: 0 <= i < 5 ==> |p[i]| == 5
    ensures Weigh(Row(p[0]), Row(p[1]), Row(p[2]), Row(p[3]), Row(p[4])) ==
            Weigh(p[0][0] + 19 * (p[1][4] + p[2][3] + p[3][2] + p[4][1]),
                  p[0][1] + p[1][0] + 19 * (p[2][4] + p[3][3] + p[4][2]),
                  p[0][2] + p[1][1] + p[2][0] + 19 * (p[3][4] + p[4][3]),
                  p[0][3] + p[1][2] + p[2][1] + p[3][0] + 19 * p[4][4],
                  p[0][4] + p[1][3] + p[2][2] + p[3][1] + p[4][0]) + k * P
  {
    k := Weigh(p[1][4] + p[2][3] + p[3][2] + p[4][1], p[2][4] + p[3][3] + p[4][2],
               p[3][4] + p[4][3], p[4][4], 0);
    LimbsSpanP();
  }

  function Row(p: seq<int>): int
    requires |p| == 5
  {
    Weigh(p[0], p[1], p[2], p[3], p[4])
  }

  function Scaled(x: int, b: seq<int>): seq<int>
    requires |b| == 5
  {
    [x * b[0], x * b[1], x * b[2], x * b[3], x * b[4]]
  }

  lemma RowsMultiply(a: seq<int>, b: seq<int>)
    requires |a| == 5 && |b| == 5
    ensures Row(a) * Row(b) ==
            Weigh(Row(Scaled(a[0], b)), Row(Scaled(a[1], b)), Row(Scaled(a[2], b)), Row(Scaled(a[3], b)), Row(Scaled(a[4], b)))
  {
    var w := Row(b);
    forall i | 0 <= i < 5 ensures Row(Scaled(a[i], b)) == w * a[i] {
      Spread(a[i], b[0], b[1], b[2], b[3], b[4]);
    }
    Spread(w, a[0], a[1], a[2], a[3], a[4]);
  }

  method Mul(a: Fe, b: Fe) returns (r: Fe)
    requires Bounded(a) && Bounded(b)
    ensures Bounded(r) && Residue(r) == (Residue(a) * Residue(b)) % P
  {
    var x := Carry(a);
    var y := Carry(b);
    var t0, t1, t2, t3, t4 := Columns(x, y);
    r := FoldColumns(t0, t1, t2, t3, t4);
    ProductResidue(Value(x), Value(y));
  }

  /** The five column sums of a product, before carrying. */
  method Columns(x: Fe, y: Fe) returns (t0: u128, t1: u128, t2: u128, t3: u128, t4: u128)
    requires Carried(x) && Carried(y)
    ensures t0 < 0x8000_0000_0000_0000_0000_0000_0000 && t1 < 0x8000_0000_0000_0000_0000_0000_0000
    ensures t2 < 0x8000_0000_0000_0000_0000_0000_0000 && t3 < 0x8000_0000_0000_0000_0000_0000_0000
    ensures t4 < 0x8000_0000_0000_0000_0000_0000_000
    ensures Weigh(t0 as int, t1 as int, t2 as int, t3 as int, t4 as int) % P == (Value(x) * Value(y)) % P
  {
    var (a0, a1, a2, a3, a4) := (x.l0 as u128, x.l1 as u128, x.l2 as u128, x.l3 as u128, x.l4 as u128);
    var (b0, b1, b2, b3, b4) := (y.l0 as u128, y.l1 as u128, y.l2 as u128, y.l3 as u128, y.l4 as u128);
    var (c1, c2, c3, c4) := (b1 * 19, b2 * 19, b3 * 19, b4 * 19);
    ghost var u, v := Limbs(x), Limbs(y);
    t0 := Wide(a0, b0) + Wide19(a1, c4, v[4]) + Wide19(a2, c3, v[3]) + Wide19(a3, c2, v[2]) + Wide19(a4, c1, v[1]);
    t1 := Wide(a0, b1) + Wide(a1, b0) + Wide19(a2, c4, v[4]) + Wide19(a3, c3, v[3]) + Wide19(a4, c2, v[2]);
    t2 := Wide(a0, b2) + Wide(a1, b1) + Wide(a2, b0) + Wide19(a3, c4, v[4]) + Wide19(a4, c3, v[3]);
    t3 := Wide(a0, b3) + Wide(a1, b2) + Wide(a2, b1) + Wide(a3, b0) + Wide19(a4, c4, v[4]);
    t4 := Wide(a0, b4) + Wide(a1, b3) + Wide(a2, b2) + Wide(a3, b1) + Wide(a4, b0);
    ColumnsAreProduct(u, v, [t0 as int, t1 as int, t2 as int, t3 as int, t4 as int]);
  }

  function Limbs(f: Fe): (r: seq<int>)
    ensures |r| == 5 && Row(r) == Value(f)
  {
    [f.l0 as int, f.l1 as int, f.l2 as int, f.l3 as int, f.l4 as int]
  }

  lemma ColumnsAreProduct(u: seq<int>, v: seq<int>, t: seq<int>)
    requires |u| == 5 && |v| == 5 && |t| == 5
    requires t[0] == u[0]*v[0] + 19*(u[1]*v[4]) + 19*(u[2]*v[3]) + 19*(u[3]*v[2]) + 19*(u[4]*v[1])
    requires t[1] == u[0]*v[1] + u[1]*v[0] + 19*(u[2]*v[4]) + 19*(u[3]*v[3]) + 19*(u[4]*v[2])
    requires t[2] == u[0]*v[2] + u[1]*v[1] + u[2]*v[0] + 19*(u[3]*v[4]) + 19*(u[4]*v[3])
    requires t[3] == u[0]*v[3] + u[1]*v[2] + u[2]*v[1] + u[3]*v[0] + 19*(u[4]*v[4])
    requires t[4] == u[0]*v[4] + u[1]*v[3] + u[2]*v[2] + u[3]*v[1] + u[4]*v[0]
    ensures Row(t) % P == (Row(u) * Row(v)) % P
  {
    RowsMultiply(u, v);
    var k := FoldRows([Scaled(u[0], v), Scaled(u[1], v), Scaled(u[2], v), Scaled(u[3], v), Scaled(u[4], v)]);
    assert Row(u) * Row(v) == Row(t) + k * P;
    AddMultiple(Row(t), k);
  }

  /** The carry chain at the end of mul. */
  method FoldColumns(u0: u128, u1: u128, u2: u128, u3: u128, u4: u128) returns (r: Fe)
    requires u0 < 0x8000_0000_0000_0000_0000_0000_0000 && u1 < 0x8000_0000_0000_0000_0000_0000_0000
    requires u2 < 0x8000_0000_0000_0000_0000_0000_0000 && u3 < 0x8000_0000_0000_0000_0000_0000_0000
    requires u4 < 0x8000_0000_0000_0000_0000_0000_000
    ensures Bounded(r)
    ensures Residue(r) == Weigh(u0 as int, u1 as int, u2 as int, u3 as int, u4 as int) % P
  {
    var t0, t1, t2, t3, t4 := u0, u1, u2, u3, u4;
    t1 := t1 + t0 / 0x8_0000_0000_0000;
    var h0 := (t0 % 0x8_0000_0000_0000) as u64;
    t2 := t2 + t1 / 0x8_0000_0000_0000;
    var h1 := (t1 % 0x8_0000_0000_0000) as u64;
    t3 := t3 + t2 / 0x8_0000_0000_0000;
    var h2 := (t2 % 0x8_0000_0000_0000) as u64;
    t4 := t4 + t3 / 0x8_0000_0000_0000;
    var h3 := (t3 % 0x8_0000_0000_0000) as u64;
    var c := (t4 / 0x8_0000_0000_0000) as u64;
    var h4 := (t4 % 0x8_0000_0000_0000) as u64;
    h0 := h0 + c * 19;
    ghost var d := (h0 / 0x8_0000_0000_0000) as int;
    h1 := h1 + h0 / 0x8_0000_0000_0000;
    h0 := h0 % 0x8_0000_0000_0000;
    r := Fe(h0, h1, h2, h3, h4);
    CarriedAround(u0 as int, u1 as int, u2 as int, u3 as int, u4 as int, r, (t0 / 0x8_0000_0000_0000) as int + d,
      (t1 / 0x8_0000_0000_0000) as int, (t2 / 0x8_0000_0000_0000) as int, (t3 / 0x8_0000_0000_0000) as int, c as int);
  }

  // ---- encoding -------------------------------------------------------------

  lemma FourWords(w0: u64, w1: u64, w2: u64, w3: u64)
    ensures WordsValue([w0, w1, w2, w3]) ==
            w0 as int + TWO64 * (w1 as int + TWO64 * (w2 as int + TWO64 * w3 as int))
  {
    var w := [w0, w1, w2, w3];
    assert w[1..] == [w1, w2, w3] && w[1..][1..] == [w2, w3] && w[1..][1..][1..] == [w3];
    assert WordsValue([w3]) == w3 as int;
    assert WordsValue([w2, w3]) == w2 as int + TWO64 * w3 as int;
  }

  /** The carry of h + 19 out of the top limb says whether h is at least P. */
  lemma TopQuotient(h0: int, h1: int, h2: int, h3: int, h4: int, q0: int, q1: int, q2: int, q3: int, q4: int)
    requires 0 <= Weigh(h0, h1, h2, h3, h4) < P + 0x1000
    requires 0 <= h0 + 19 - B51 * q0 < B51 && 0 <= h1 + q0 - B51 * q1 < B51 && 0 <= h2 + q1 - B51 * q2 < B51
    requires 0 <= h3 + q2 - B51 * q3 < B51 && 0 <= h4 + q3 - B51 * q4 < B51
    ensures q4 == if Weigh(h0, h1, h2, h3, h4) >= P then 1 else 0
  {
    LimbsSpanP();
  }

  /** Carrying h + 19 q and dropping 2^255 q subtracts q P. */
  lemma SubtractsP(h0: int, h1: int, h2: int, h3: int, h4: int, q: int, r0: int, r1: int, r2: int, r3: int, r4: int,
                   c0: int, c1: int, c2: int, c3: int, c4: int)
    requires h0 + 19 * q == r0 + B51 * c0 && h1 + c0 == r1 + B51 * c1 && h2 + c1 == r2 + B51 * c2
    requires h3 + c2 == r3 + B51 * c3 && h4 + c3 == r4 + B51 * c4
    ensures Weigh(h0, h1, h2, h3, h4) == Weigh(r0, r1, r2, r3, r4) + B204 * (B51 * c4) - 19 * q
  {
  }

  /** The limbs below 2^51 of the one representative below P. */
  method Reduce(f: Fe) returns (r: Fe)
    requires Bounded(f)
    ensures Carried(r) && r.l0 < 0x8_0000_0000_0000
    ensures Value(r) == Residue(f)
  {
    var h := Carry(f);
    var q := IsAtLeastP(h);
    r := SubtractMultiple(h, q);
    ghost var c :| Value(h) == Value(r) + B204 * (B51 * c) - 19 * q as int;
    assert 0 <= Value(h) < P + 0x1000 && Value(r) < P + 19 by { LimbsSpanP(); }
    InRange(Value(h), Value(r), q as int, c);
  }

  method IsAtLeastP(h: Fe) returns (q: u64)
    requires Carried(h)
    ensures q == if Value(h) >= P then 1 else 0
  {
    var q0 := (h.l0 + 19) / 0x8_0000_0000_0000;
    var q1 := (h.l1 + q0) / 0x8_0000_0000_0000;
    var q2 := (h.l2 + q1) / 0x8_0000_0000_0000;
    var q3 := (h.l3 + q2) / 0x8_0000_0000_0000;
    q := (h.l4 + q3) / 0x8_0000_0000_0000;
    assert 0 <= Value(h) < P + 0x1000 by { LimbsSpanP(); }
    TopQuotient(h.l0 as int, h.l1 as int, h.l2 as int, h.l3 as int, h.l4 as int, q0 as int, q1 as int, q2 as int, q3 as int, q as int);
  }

  method SubtractMultiple(h: Fe, q: u64) returns (r: Fe)
    requires Carried(h) && q <= 1
    ensures Carried(r) && r.l0 < 0x8_0000_0000_0000
    ensures exists c: int :: Value(h) == Value(r) + B204 * (B51 * c) - 19 * q as int
  {
    var h0 := h.l0 + 19 * q;
    var h1 := h.l1 + h0 / 0x8_0000_0000_0000;
    var h2 := h.l2 + h1 / 0x8_0000_0000_0000;
    var h3 := h.l3 + h2 / 0x8_0000_0000_0000;
    var h4 := h.l4 + h3 / 0x8_0000_0000_0000;
    ghost var c := h4 / 0x8_0000_0000_0000;
    SubtractsP(h.l0 as int, h.l1 as int, h.l2 as int, h.l3 as int, h.l4 as int, q as int,
               (h0 % 0x8_0000_0000_0000) as int, (h1 % 0x8_0000_0000_0000) as int, (h2 % 0x8_0000_0000_0000) as int,
               (h3 % 0x8_0000_0000_0000) as int, (h4 % 0x8_0000_0000_0000) as int,
               (h0 / 0x8_0000_0000_0000) as int, (h1 / 0x8_0000_0000_0000) as int, (h2 / 0x8_0000_0000_0000) as int,
               (h3 / 0x8_0000_0000_0000) as int, c as int);
    h0 := h0 % 0x8_0000_0000_0000;
    h1 := h1 % 0x8_0000_0000_0000;
    h2 := h2 % 0x8_0000_0000_0000;
    h3 := h3 % 0x8_0000_0000_0000;
    h4 := h4 % 0x8_0000_0000_0000;
    r := Fe(h0, h1, h2, h3, h4);
    assert Value(h) == Value(r) + B204 * (B51 * c as int) - 19 * q as int;
  }

  lemma InRange(h: int, r: int, q: int, c: int)
    requires 0 <= h < P + 0x1000 && q == (if h >= P then 1 else 0)
    requires h == r + B204 * (B51 * c) - 19 * q && 0 <= r < P + 19
    ensures r == h % P
  {
    LimbsSpanP();
    ModUnique(h, P, q, r);
  }

  /** The 255 bits of five limbs, regrouped in four 64-bit words. */
  lemma Regroup(h0: int, h1: int, h2: int, h3: int, h4: int)
    requires 0 <= h0 < B51 && 0 <= h1 < B51 && 0 <= h2 < B51 && 0 <= h3 < B51 && 0 <= h4 < B51
    ensures (h0 + h1 % 0x2000 * B51) + TWO64 * ((h1 / 0x2000 + h2 % 0x400_0000 * 0x40_0000_0000)
            + TWO64 * ((h2 / 0x400_0000 + h3 % 0x80_0000_0000 * 0x200_0000)
            + TWO64 * (h3 / 0x80_0000_0000 + h4 * 0x1000))) == Weigh(h0, h1, h2, h3, h4)
  {
  }

  /** The canonical encoding: the 32 bytes of the residue itself. */
  method ToBytes(f: Fe) returns (out: seq<u8>)
    requires Bounded(f)
    ensures |out| == 32 && Little(out) == Residue(f)
    ensures out == LittleBytes(Residue(f), 32)
  {
    var h := Reduce(f);
    var w0, w1, w2, w3 := Pack(h);
    Regroup(h.l0 as int, h.l1 as int, h.l2 as int, h.l3 as int, h.l4 as int);
    out := FromWords([w0, w1, w2, w3]);
    FromWordsValue([w0, w1, w2, w3]);
    FourWords(w0, w1, w2, w3);
    WrittenOnce(out, Residue(f));
  }

  method Pack(h: Fe) returns (w0: u64, w1: u64, w2: u64, w3: u64)
    requires Carried(h) && h.l0 < 0x8_0000_0000_0000
    ensures w0 as int == h.l0 as int + h.l1 as int % 0x2000 * B51
    ensures w1 as int == h.l1 as int / 0x2000 + h.l2 as int % 0x400_0000 * 0x40_0000_0000
    ensures w2 as int == h.l2 as int / 0x400_0000 + h.l3 as int % 0x80_0000_0000 * 0x200_0000
    ensures w3 as int == h.l3 as int / 0x80_0000_0000 + h.l4 as int * 0x1000
  {
    Splits();
    w0 := Joined(h.l0 as nat, h.l1 as nat, 0x8_0000_0000_0000, 0x2000);
    w1 := Joined((h.l1 / 0x2000) as nat, h.l2 as nat, 0x40_0000_0000, 0x400_0000);
    w2 := Joined((h.l2 / 0x400_0000) as nat, h.l3 as nat, 0x200_0000, 0x80_0000_0000);
    w3 := Joined((h.l3 / 0x80_0000_0000) as nat, h.l4 as nat, 0x1000, 0x10_0000_0000_0000);
  }

  /** The element an encoding states, its top bit ignored. */
  method FromBytes(bytes: seq<u8>) returns (r: Fe)
    requires |bytes| == 32
    ensures Bounded(r) && Value(r) == Little(bytes) % Pow2(255)
  {
    var w0, w1, w2, w3 := Word64(bytes, 0), Word64(bytes, 1), Word64(bytes, 2), Word64(bytes, 3);
    r := Unpack(w0, w1, w2, w3);
    assert bytes[8..][..8] == bytes[8..16] && bytes[16..][..8] == bytes[16..24] && bytes[24..][..8] == bytes[24..32];
    assert bytes[8..][8..] == bytes[16..] && bytes[16..][8..] == bytes[24..] && bytes[24..][8..] == [];
    assert ToWords(bytes[24..]) == [w3];
    assert ToWords(bytes[16..]) == [w2, w3];
    assert ToWords(bytes[8..]) == [w1, w2, w3];
    assert ToWords(bytes) == [w0, w1, w2, w3];
    ToWordsValue(bytes);
    FourWords(w0, w1, w2, w3);
    WordsToLimbs(r, w0 as int, w1 as int, w2 as int, w3 as int);
    TopBit(r, Little(bytes), w3 as int / 0x8000_0000_0000_0000);
  }

  method Unpack(w0: u64, w1: u64, w2: u64, w3: u64) returns (r: Fe)
    ensures r.l0 as int == w0 as int % B51
    ensures r.l1 as int == w0 as int / B51 + w1 as int % 0x40_0000_0000 * 0x2000
    ensures r.l2 as int == w1 as int / 0x40_0000_0000 + w2 as int % 0x200_0000 * 0x400_0000
    ensures r.l3 as int == w2 as int / 0x200_0000 + w3 as int % 0x1000 * 0x80_0000_0000
    ensures r.l4 as int == w3 as int / 0x1000 % B51
  {
    var l1, l2, l3 := Straddling(w0, w1, w2, w3);
    r := Fe(w0 % 0x8_0000_0000_0000, l1 % 0x8_0000_0000_0000, l2 % 0x8_0000_0000_0000, l3 % 0x8_0000_0000_0000,
            (w3 / 0x1000) % 0x8_0000_0000_0000);
    Middle1(w0 as int / B51, w1 as int);
    Middle2(w1 as int / 0x40_0000_0000, w2 as int);
    Middle3(w2 as int / 0x200_0000, w3 as int);
  }

  /** The bits of the limbs that straddle two words, before masking. */
  method Straddling(w0: u64, w1: u64, w2: u64, w3: u64) returns (l1: u64, l2: u64, l3: u64)
    ensures l1 as int == w0 as int / B51 + w1 as int % B51 * 0x2000
    ensures l2 as int == w1 as int / 0x40_0000_0000 + w2 as int % 0x40_0000_0000 * 0x400_0000
    ensures l3 as int == w2 as int / 0x200_0000 + w3 as int % 0x200_0000 * 0x80_0000_0000
  {
    Splits();
    l1 := Joined((w0 / 0x8_0000_0000_0000) as nat, w1 as nat, 0x2000, 0x8_0000_0000_0000);
    l2 := Joined((w1 / 0x40_0000_0000) as nat, w2 as nat, 0x400_0000, 0x40_0000_0000);
    l3 := Joined((w2 / 0x200_0000) as nat, w3 as nat, 0x80_0000_0000, 0x200_0000);
  }

  lemma Middle1(low: int, w: int)
    requires 0 <= low < 0x2000 && 0 <= w
    ensures (low + w % B51 * 0x2000) % B51 == low + w % 0x40_0000_0000 * 0x2000
  {
    Middle(low, w % B51, w % 0x40_0000_0000, 0x2000, 0x40_0000_0000, w % B51 / 0x40_0000_0000);
  }

  lemma Middle2(low: int, w: int)
    requires 0 <= low < 0x400_0000 && 0 <= w
    ensures (low + w % 0x40_0000_0000 * 0x400_0000) % B51 == low + w % 0x200_0000 * 0x400_0000
  {
    Middle(low, w % 0x40_0000_0000, w % 0x200_0000, 0x400_0000, 0x200_0000, w % 0x40_0000_0000 / 0x200_0000);
  }

  lemma Middle3(low: int, w: int)
    requires 0 <= low < 0x80_0000_0000 && 0 <= w
    ensures (low + w % 0x200_0000 * 0x80_0000_0000) % B51 == low + w % 0x1000 * 0x80_0000_0000
  {
    Middle(low, w % 0x200_0000, w % 0x1000, 0x80_0000_0000, 0x1000, w % 0x200_0000 / 0x1000);
  }

  /** The low 51 bits of a limb made of the top of one word and the next word. */
  lemma Middle(low: int, x: int, y: int, m: int, n: int, q: int)
    requires x == n * q + y && 0 <= y < n && 0 <= low < m && m * n == B51
    ensures (low + x * m) % B51 == low + y * m
  {
    assert x * m == B51 * q + y * m by { assert (n * q) * m == (m * n) * q; }
    ProductBound(y, m, n - 1, m);
    assert (n - 1) * m == B51 - m;
    ModUnique(low + x * m, B51, q, low + y * m);
  }

  lemma WordsToLimbs(r: Fe, w0: int, w1: int, w2: int, w3: int)
    requires 0 <= w0 < TWO64 && 0 <= w1 < TWO64 && 0 <= w2 < TWO64 && 0 <= w3 < TWO64
    requires r.l0 as int == w0 % B51 && r.l1 as int == w0 / B51 + w1 % 0x40_0000_0000 * 0x2000
    requires r.l2 as int == w1 / 0x40_0000_0000 + w2 % 0x200_0000 * 0x400_0000
    requires r.l3 as int == w2 / 0x200_0000 + w3 % 0x1000 * 0x80_0000_0000 && r.l4 as int == w3 / 0x1000 % B51
    ensures Value(r) < P + 19
    ensures w0 + TWO64 * (w1 + TWO64 * (w2 + TWO64 * w3)) == Value(r) + w3 / 0x8000_0000_0000_0000 * (P + 19)
  {
    LimbsSpanP();
    assert w3 / 0x1000 == w3 / 0x1000 % B51 + B51 * (w3 / 0x8000_0000_0000_0000);
    SplitWords(w0 % B51, w0 / B51, w1 % 0x40_0000_0000, w1 / 0x40_0000_0000, w2 % 0x200_0000, w2 / 0x200_0000,
               w3 % 0x1000, w3 / 0x1000 % B51, w3 / 0x8000_0000_0000_0000);
    assert r.l1 < 0x8_0000_0000_0000 && r.l2 < 0x8_0000_0000_0000 && r.l3 < 0x8_0000_0000_0000;
  }

  lemma SplitWords(a0: int, a1: int, b0: int, b1: int, c0: int, c1: int, d0: int, d1: int, top: int)
    ensures (a0 + B51 * a1) + TWO64 * ((b0 + 0x40_0000_0000 * b1) + TWO64 * ((c0 + 0x200_0000 * c1)
            + TWO64 * (d0 + 0x1000 * (d1 + B51 * top)))) ==
            Weigh(a0, a1 + b0 * 0x2000, b1 + c0 * 0x400_0000, c1 + d0 * 0x80_0000_0000, d1) + top * (P + 19)
  {
    LimbsSpanP();
  }

  lemma TopBit(r: Fe, v: nat, top: int)
    requires Value(r) < P + 19 && v == Value(r) + top * (P + 19)
    ensures v % Pow2(255) == Value(r)
  {
    assert Pow2(255) == P + 19 by {
      Pow2Of64();
      Pow2Known(51, B51, 51, B51);
      Pow2Known(102, B102, 51, B51);
      Pow2Known(153, B153, 51, B51);
      Pow2Known(204, B204, 51, B51);
      LimbsSpanP();
    }
    ModUnique(v, P + 19, top, Value(r));
  }

  // ---- powers by addition chains ----------------------------------------------

  function Times(x: int, y: int): (r: nat)
    ensures r < P
  {
    (x * y) % P
  }

  /** x^e modulo P. */
  function Power(x: nat, e: nat): (r: nat)
    ensures r < P
  {
    if e == 0 then 1 else Times(x, Power(x, e - 1))
  }

  lemma TimesAssociates(x: nat, y: nat, z: nat)
    ensures Times(Times(x, y), z) == Times(x, Times(y, z))
  {
    ProductResidue(x * y, z);
    ProductResidue(Times(x, y), z);
    ProductResidue(x, y * z);
    ProductResidue(x, Times(y, z));
    assert Times(x, y) % P == Times(x, y) && Times(y, z) % P == Times(y, z);
    assert (x * y) * z == x * (y * z);
  }

  lemma {:induction false} PowerAdd(x: nat, a: nat, b: nat)
    ensures Times(Power(x, a), Power(x, b)) == Power(x, a + b)
  {
    if a > 0 {
      PowerAdd(x, a - 1, b);
      TimesAssociates(x, Power(x, a - 1), Power(x, b));
    }
  }

  /** pw enumerates the powers of one element. */
  ghost predicate Powers(pw: nat -> nat)
  {
    forall a: nat, b: nat {:trigger PowersAdd(pw, a, b)} :: PowersAdd(pw, a, b)
  }

  ghost predicate PowersAdd(pw: nat -> nat, a: nat, b: nat)
  {
    pw(a + b) == (pw(a) * pw(b)) % P
  }

  /** f is the e-th of the powers pw. */
  ghost predicate IsPower(f: Fe, pw: nat -> nat, e: nat)
  {
    Bounded(f) && Residue(f) == pw(e)
  }

  method MulPowers(a: Fe, b: Fe, ghost pw: nat -> nat, ghost i: nat, ghost j: nat) returns (r: Fe)
    requires Powers(pw) && IsPower(a, pw, i) && IsPower(b, pw, j)
    ensures IsPower(r, pw, i + j)
  {
    r := Mul(a, b);
    assert PowersAdd(pw, i, j);
  }

  method SquareN(x: Fe, n: nat, ghost pw: nat -> nat, ghost e: nat) returns (r: Fe)
    requires Powers(pw) && IsPower(x, pw, e)
    ensures IsPower(r, pw, e * Pow2(n))
  {
    r := x;
    for i := 0 to n
      invariant IsPower(r, pw, e * Pow2(i))
    {
      r := MulPowers(r, r, pw, e * Pow2(i), e * Pow2(i));
      Doubled(e, Pow2(i));
    }
  }

  /** Shifting an all-ones exponent left by b and adding b ones makes it longer. */
  method ExtendOnes(x: Fe, y: Fe, ghost a: nat, b: nat, ghost pw: nat -> nat) returns (r: Fe)
    requires Powers(pw) && IsPower(x, pw, Pow2(a) - 1) && IsPower(y, pw, Pow2(b) - 1)
    ensures IsPower(r, pw, Pow2(a + b) - 1)
  {
    var s := SquareN(x, b, pw, Pow2(a) - 1);
    ShiftedOnes(a, b);
    r := MulPowers(s, y, pw, Pow2(a + b) - Pow2(b), Pow2(b) - 1);
  }

  lemma OneLess(x: int, y: int)
    requires x >= 1 && y >= 0
    ensures (x - 1) * y == x * y - y >= 0
  {
  }

  lemma ShiftedOnes(a: nat, b: nat)
    ensures (Pow2(a) - 1) * Pow2(b) == Pow2(a + b) - Pow2(b) >= 0
  {
    Pow2Add(a, b);
    OneLess(Pow2(a), Pow2(b));
  }

  /** The start of both chains: z^(2^5 - 1) and z^11. */
  method Pow5(z: Fe, ghost pw: nat -> nat) returns (r: Fe, z11: Fe)
    requires Powers(pw) && IsPower(z, pw, 1)
    ensures IsPower(r, pw, Pow2(5) - 1) && IsPower(z11, pw, 11)
  {
    var z2 := SquareN(z, 1, pw, 1);
    var z8 := SquareN(z2, 2, pw, 2);
    var z9 := MulPowers(z8, z, pw, 8, 1);
    z11 := MulPowers(z9, z2, pw, 9, 2);
    var z22 := SquareN(z11, 1, pw, 11);
    r := MulPowers(z22, z9, pw, 22, 9);
  }

  method Pow250(z: Fe, ghost pw: nat -> nat) returns (r: Fe, z11: Fe)
    requires Powers(pw) && IsPower(z, pw, 1)
    ensures IsPower(r, pw, Pow2(5 * 50) - 1) && IsPower(z11, pw, 11)
  {
    var z_5_0;
    z_5_0, z11 := Pow5(z, pw);
    var z_50_0 := TenTimes(z_5_0, 5, pw);
    r := FiveTimes(z_50_0, 50, pw);
  }

  /** From z^(2^n - 1) to z^(2^(10 n) - 1), by 2 n, 4 n and 8 n. */
  method TenTimes(x: Fe, n: nat, ghost pw: nat -> nat) returns (r: Fe)
    requires Powers(pw) && IsPower(x, pw, Pow2(n) - 1)
    ensures IsPower(r, pw, Pow2(10 * n) - 1)
  {
    var x2 := ExtendOnes(x, x, n, n, pw);
    var x4 := ExtendOnes(x2, x2, 2 * n, 2 * n, pw);
    var x8 := ExtendOnes(x4, x4, 4 * n, 4 * n, pw);
    r := ExtendOnes(x8, x2, 8 * n, 2 * n, pw);
  }

  /** From z^(2^n - 1) to z^(2^(5 n) - 1), by 2 n and 4 n. */
  method FiveTimes(x: Fe, n: nat, ghost pw: nat -> nat) returns (r: Fe)
    requires Powers(pw) && IsPower(x, pw, Pow2(n) - 1)
    ensures IsPower(r, pw, Pow2(5 * n) - 1)
  {
    var x2 := ExtendOnes(x, x, n, n, pw);
    var x4 := ExtendOnes(x2, x2, 2 * n, 2 * n, pw);
    r := ExtendOnes(x4, x, 4 * n, n, pw);
  }

  /** The powers of z, as the chains take them. */
  ghost function PowersOf(z: nat): (pw: nat -> nat)
    requires z < P
    ensures Powers(pw) && pw(1) == z
    ensures forall e :: pw(e) == Power(z, e)
  {
    var pw := (e: nat) => Power(z, e);
    assert Powers(pw) by {
      forall a: nat, b: nat ensures PowersAdd(pw, a, b) { PowerAdd(z, a, b); }
    }
    PowerOne(z);
    pw
  }

  lemma PowerOne(z: nat)
    requires z < P
    ensures Power(z, 1) == z
  {
    assert Power(z, 0) == 1;
  }

  lemma PIsPower()
    ensures P == Pow2(255) - 19
  {
    Pow2Of64();
    Pow2Known(51, B51, 51, B51);
    Pow2Known(102, B102, 51, B51);
    Pow2Known(153, B153, 51, B51);
    Pow2Known(204, B204, 51, B51);
    LimbsSpanP();
  }

  /** z^(p-2): by Fermat's little theorem the inverse of a nonzero z. */
  method Invert(z: Fe) returns (r: Fe)
    requires Bounded(z)
    ensures Bounded(r) && Residue(r) == Power(Residue(z), P - 2)
  {
    ghost var pw := PowersOf(Residue(z));
    var z250, z11 := Pow250(z, pw);
    var s := SquareN(z250, 5, pw, Pow2(5 * 50) - 1);
    ShiftedOnes(250, 5);
    PIsPower();
    r := MulPowers(s, z11, pw, P + 19 - 32, 11);
  }

  lemma P58Exponent()
    ensures (Pow2(5 * 50) - 1) * Pow2(2) + 1 == (P - 5) / 8 && Pow2(5 * 50) >= 1
  {
    ShiftedOnes(250, 2);
    PIsPower();
    Pow2Known(252, Pow2(252), 3, 8);
  }

  /** z^((p-5)/8), the square root exponent. */
  method PowP58(z: Fe) returns (r: Fe)
    requires Bounded(z)
    ensures Bounded(r) && Residue(r) == Power(Residue(z), (P - 5) / 8)
  {
    ghost var pw := PowersOf(Residue(z));
    var z250, z11 := Pow250(z, pw);
    ghost var ones := Pow2(5 * 50) - 1;
    var s := SquareN(z250, 2, pw, ones);
    P58Exponent();
    r := MulPowers(s, z, pw, ones * Pow2(2), 1);
  }

  // ---- choosing without a branch ----------------------------------------------

  method Swap(a: Fe, b: Fe, choice: u64) returns (x: Fe, y: Fe)
    requires choice <= 1
    ensures (x, y) == if choice == 1 then (b, a) else (a, b)
  {
    var m := Mask64(choice);
    var t0, t1, t2, t3, t4 := And64(m, Xor64(a.l0, b.l0)), And64(m, Xor64(a.l1, b.l1)), And64(m, Xor64(a.l2, b.l2)),
                              And64(m, Xor64(a.l3, b.l3)), And64(m, Xor64(a.l4, b.l4));
    MaskedChoice(a.l0, b.l0, choice);
    MaskedChoice(a.l1, b.l1, choice);
    MaskedChoice(a.l2, b.l2, choice);
    MaskedChoice(a.l3, b.l3, choice);
    MaskedChoice(a.l4, b.l4, choice);
    x := Fe(Xor64(a.l0, t0), Xor64(a.l1, t1), Xor64(a.l2, t2), Xor64(a.l3, t3), Xor64(a.l4, t4));
    y := Fe(Xor64(b.l0, t0), Xor64(b.l1, t1), Xor64(b.l2, t2), Xor64(b.l3, t3), Xor64(b.l4, t4));
  }

  method Select(a: Fe, b: Fe, choice: u64) returns (r: Fe)
    requires choice <= 1
    ensures r == if choice == 1 then b else a
  {
    var m := Mask64(choice);
    MaskedChoice(a.l0, b.l0, choice);
    MaskedChoice(a.l1, b.l1, choice);
    MaskedChoice(a.l2, b.l2, choice);
    MaskedChoice(a.l3, b.l3, choice);
    MaskedChoice(a.l4, b.l4, choice);
    r := Fe(Xor64(a.l0, And64(m, Xor64(a.l0, b.l0))), Xor64(a.l1, And64(m, Xor64(a.l1, b.l1))),
            Xor64(a.l2, And64(m, Xor64(a.l2, b.l2))), Xor64(a.l3, And64(m, Xor64(a.l3, b.l3))),
            Xor64(a.l4, And64(m, Xor64(a.l4, b.l4))));
  }

  /** Whether the canonical value is odd. */
  method IsOdd(f: Fe) returns (odd: u64)
    requires Bounded(f)
    ensures odd as int == Residue(f) % 2
  {
    var out := ToBytes(f);
    odd := (out[0] % 2) as u64;
    assert Little(out) == out[0] as int + 256 * Little(out[1..]);
  }
}
