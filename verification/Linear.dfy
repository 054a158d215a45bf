/** Sums in a group where every element is its own inverse, such as words under
    exclusive-or, and the maps that keep them. */
module Linear {

  datatype Group<!T(!new)> = Group(zero: T, add: (T, T) -> T)

  ghost predicate LawAt<T(!new)>(g: Group<T>, x: T, y: T, z: T)
  {
    && g.add(x, y) == g.add(y, x)
    && g.add(g.add(x, y), z) == g.add(x, g.add(y, z))
    && g.add(g.zero, x) == x && g.add(x, x) == g.zero
  }

  ghost predicate GroupLaws<T(!new)>(g: Group<T>)
  {
    forall x, y, z :: LawAt(g, x, y, z)
  }

  ghost predicate AddsAt<T(!new)>(g: Group<T>, f: T -> T, x: T, y: T)
  {
    f(g.add(x, y)) == g.add(f(x), f(y))
  }

  ghost predicate Additive<T(!new)>(g: Group<T>, f: T -> T)
  {
    forall x, y :: AddsAt(g, f, x, y)
  }

  lemma Swap4<T(!new)>(g: Group<T>, a: T, b: T, c: T, d: T)
    requires GroupLaws(g)
    ensures g.add(g.add(a, b), g.add(c, d)) == g.add(g.add(a, c), g.add(b, d))
  {
    assert LawAt(g, a, b, g.add(c, d)) && LawAt(g, b, c, d) && LawAt(g, c, b, d) && LawAt(g, a, c, g.add(b, d));
    assert LawAt(g, b, c, a);
  }

  lemma ZeroLaws<T(!new)>(g: Group<T>, x: T)
    requires GroupLaws(g)
    ensures g.add(g.zero, x) == x == g.add(x, g.zero) && g.add(x, x) == g.zero
  {
    assert LawAt(g, x, g.zero, x);
  }

  lemma AdditiveZero<T(!new)>(g: Group<T>, f: T -> T)
    requires GroupLaws(g) && Additive(g, f)
    ensures f(g.zero) == g.zero
  {
    ZeroLaws(g, g.zero);
    assert AddsAt(g, f, g.zero, g.zero);
    ZeroLaws(g, f(g.zero));
  }

  function Chosen<T(!new)>(g: Group<T>, bit: bool, x: T): T
  {
    if bit then x else g.zero
  }

  /** The sum of the elements whose bits are set. */
  function Pick<T(!new)>(g: Group<T>, v: seq<T>, bits: seq<bool>): T
    requires |v| == |bits|
  {
    if v == [] then g.zero else g.add(Chosen(g, bits[0], v[0]), Pick(g, v[1..], bits[1..]))
  }

  lemma {:induction false} PickAdd<T(!new)>(g: Group<T>, u: seq<T>, v: seq<T>, w: seq<T>, bits: seq<bool>)
    requires GroupLaws(g) && |u| == |v| == |w| == |bits|
    requires forall i :: 0 <= i < |u| ==> w[i] == g.add(u[i], v[i])
    ensures Pick(g, w, bits) == g.add(Pick(g, u, bits), Pick(g, v, bits))
  {
    ZeroLaws(g, g.zero);
    if u != [] {
      PickAdd(g, u[1..], v[1..], w[1..], bits[1..]);
      Swap4(g, Chosen(g, bits[0], u[0]), Pick(g, u[1..], bits[1..]), Chosen(g, bits[0], v[0]), Pick(g, v[1..], bits[1..]));
    }
  }

  lemma {:induction false} PickXor<T(!new)>(g: Group<T>, v: seq<T>, a: seq<bool>, b: seq<bool>, c: seq<bool>)
    requires GroupLaws(g) && |v| == |a| == |b| == |c|
    requires forall i :: 0 <= i < |v| ==> c[i] == (a[i] != b[i])
    ensures Pick(g, v, c) == g.add(Pick(g, v, a), Pick(g, v, b))
  {
    ZeroLaws(g, g.zero);
    if v != [] {
      PickXor(g, v[1..], a[1..], b[1..], c[1..]);
      ZeroLaws(g, v[0]);
      Swap4(g, Chosen(g, a[0], v[0]), Pick(g, v[1..], a[1..]), Chosen(g, b[0], v[0]), Pick(g, v[1..], b[1..]));
    }
  }

  lemma {:induction false} PickMap<T(!new)>(g: Group<T>, f: T -> T, v: seq<T>, w: seq<T>, bits: seq<bool>)
    requires GroupLaws(g) && Additive(g, f) && |v| == |w| == |bits|
    requires forall i :: 0 <= i < |v| ==> w[i] == f(v[i])
    ensures f(Pick(g, v, bits)) == Pick(g, w, bits)
  {
    AdditiveZero(g, f);
    if v != [] {
      PickMap(g, f, v[1..], w[1..], bits[1..]);
      assert AddsAt(g, f, Chosen(g, bits[0], v[0]), Pick(g, v[1..], bits[1..]));
    }
  }

  /** Additive maps that agree on some elements agree on every sum of them. */
  lemma SameOnSums<T(!new)>(g: Group<T>, f: T -> T, h: T -> T, v: seq<T>, bits: seq<bool>)
    requires GroupLaws(g) && Additive(g, f) && Additive(g, h) && |v| == |bits|
    requires forall i :: 0 <= i < |v| ==> f(v[i]) == h(v[i])
    ensures f(Pick(g, v, bits)) == h(Pick(g, v, bits))
  {
    var w := seq(|v|, i requires 0 <= i < |v| => f(v[i]));
    PickMap(g, f, v, w, bits);
    PickMap(g, h, v, w, bits);
  }

  // ---- four at a time -------------------------------------------------------------------

  function Sum4<T(!new)>(g: Group<T>, a: T, b: T, c: T, d: T): T
  {
    g.add(g.add(a, b), g.add(c, d))
  }

  /** Sums of sums can be taken the other way round. */
  lemma Sum4Add<T(!new)>(g: Group<T>, a: T, b: T, c: T, d: T, p: T, q: T, r: T, s: T)
    requires GroupLaws(g)
    ensures g.add(Sum4(g, a, b, c, d), Sum4(g, p, q, r, s))
      == Sum4(g, g.add(a, p), g.add(b, q), g.add(c, r), g.add(d, s))
  {
    Swap4(g, g.add(a, b), g.add(c, d), g.add(p, q), g.add(r, s));
    Swap4(g, a, b, p, q);
    Swap4(g, c, d, r, s);
  }

  lemma Sum4Turn<T(!new)>(g: Group<T>, a: T, b: T, c: T, d: T)
    requires GroupLaws(g)
    ensures Sum4(g, b, c, d, a) == Sum4(g, a, b, c, d)
  {
    assert LawAt(g, d, a, a) && LawAt(g, b, c, g.add(d, a)) && LawAt(g, g.add(a, d), g.add(b, c), a);
    Swap4(g, a, d, b, c);
    assert LawAt(g, d, c, a);
  }

  /** A square of sums, by rows or by columns. */
  lemma Sum4Transpose<T(!new)>(g: Group<T>, a: seq<T>, b: seq<T>, c: seq<T>, d: seq<T>)
    requires GroupLaws(g) && |a| == |b| == |c| == |d| == 4
    ensures Sum4(g, Sum4(g, a[0], a[1], a[2], a[3]), Sum4(g, b[0], b[1], b[2], b[3]),
                    Sum4(g, c[0], c[1], c[2], c[3]), Sum4(g, d[0], d[1], d[2], d[3]))
      == Sum4(g, Sum4(g, a[0], b[0], c[0], d[0]), Sum4(g, a[1], b[1], c[1], d[1]),
                 Sum4(g, a[2], b[2], c[2], d[2]), Sum4(g, a[3], b[3], c[3], d[3]))
  {
    Sum4Add(g, a[0], a[1], a[2], a[3], b[0], b[1], b[2], b[3]);
    Sum4Add(g, c[0], c[1], c[2], c[3], d[0], d[1], d[2], d[3]);
    Sum4Add(g, g.add(a[0], b[0]), g.add(a[1], b[1]), g.add(a[2], b[2]), g.add(a[3], b[3]),
      g.add(c[0], d[0]), g.add(c[1], d[1]), g.add(c[2], d[2]), g.add(c[3], d[3]));
  }

  /** Three and five elements summed from the left. */
  function Sum3<T(!new)>(g: Group<T>, a: T, b: T, c: T): T
  {
    g.add(g.add(a, b), c)
  }

  function Sum5<T(!new)>(g: Group<T>, a: T, b: T, c: T, d: T, e: T): T
  {
    g.add(g.add(Sum3(g, a, b, c), d), e)
  }

  lemma Sum3Add<T(!new)>(g: Group<T>, a: T, b: T, c: T, p: T, q: T, r: T)
    requires GroupLaws(g)
    ensures Sum3(g, g.add(a, p), g.add(b, q), g.add(c, r)) == g.add(Sum3(g, a, b, c), Sum3(g, p, q, r))
  {
    Swap4(g, a, p, b, q);
    Swap4(g, g.add(a, b), g.add(p, q), c, r);
  }

  lemma Sum5Add<T(!new)>(g: Group<T>, a: T, b: T, c: T, d: T, e: T, p: T, q: T, r: T, s: T, t: T)
    requires GroupLaws(g)
    ensures Sum5(g, g.add(a, p), g.add(b, q), g.add(c, r), g.add(d, s), g.add(e, t))
      == g.add(Sum5(g, a, b, c, d, e), Sum5(g, p, q, r, s, t))
  {
    Sum3Add(g, a, b, c, p, q, r);
    Swap4(g, Sum3(g, a, b, c), Sum3(g, p, q, r), d, s);
    Swap4(g, g.add(Sum3(g, a, b, c), d), g.add(Sum3(g, p, q, r), s), e, t);
  }

  lemma AdditiveSum4<T(!new)>(g: Group<T>, f: T -> T, a: T, b: T, c: T, d: T)
    requires Additive(g, f)
    ensures f(Sum4(g, a, b, c, d)) == Sum4(g, f(a), f(b), f(c), f(d))
  {
    assert AddsAt(g, f, g.add(a, b), g.add(c, d)) && AddsAt(g, f, a, b) && AddsAt(g, f, c, d);
  }

  /** The sum of the elements from k on whose bits are set. */
  function PickFrom<T(!new)>(g: Group<T>, v: seq<T>, bits: seq<bool>, k: nat): T
    requires |v| == |bits| && k <= |v|
    decreases |v| - k
  {
    if k == |v| then g.zero else g.add(Chosen(g, bits[k], v[k]), PickFrom(g, v, bits, k + 1))
  }

  lemma {:induction false} PickFromIs<T(!new)>(g: Group<T>, v: seq<T>, bits: seq<bool>, k: nat)
    requires |v| == |bits| && k <= |v|
    ensures PickFrom(g, v, bits, k) == Pick(g, v[k..], bits[k..])
    decreases |v| - k
  {
    if k < |v| {
      PickFromIs(g, v, bits, k + 1);
      assert v[k..][1..] == v[k + 1..] && bits[k..][1..] == bits[k + 1..];
    }
  }

  lemma PickEight<T(!new)>(g: Group<T>, v: seq<T>, b: seq<bool>)
    requires |v| == |b| == 8
    ensures Pick(g, v, b) ==
      g.add(Chosen(g, b[0], v[0]), g.add(Chosen(g, b[1], v[1]), g.add(Chosen(g, b[2], v[2]), g.add(Chosen(g, b[3], v[3]),
      g.add(Chosen(g, b[4], v[4]), g.add(Chosen(g, b[5], v[5]), g.add(Chosen(g, b[6], v[6]),
      g.add(Chosen(g, b[7], v[7]), g.zero))))))))
  {
    PickFromIs(g, v, b, 0);
    assert v[0..] == v && b[0..] == b;
    assert PickFrom(g, v, b, 7) == g.add(Chosen(g, b[7], v[7]), g.zero);
    assert PickFrom(g, v, b, 6) == g.add(Chosen(g, b[6], v[6]), g.add(Chosen(g, b[7], v[7]), g.zero));
    assert PickFrom(g, v, b, 4) == g.add(Chosen(g, b[4], v[4]), g.add(Chosen(g, b[5], v[5]), PickFrom(g, v, b, 6)));
    assert PickFrom(g, v, b, 2) == g.add(Chosen(g, b[2], v[2]), g.add(Chosen(g, b[3], v[3]), PickFrom(g, v, b, 4)));
  }

  // ---- applying a map again and again ------------------------------------------------------

  function Iterate<T>(f: T -> T, x: T, n: nat): T
  {
    if n == 0 then x else f(Iterate(f, x, n - 1))
  }

  ghost predicate KeepsAt<T(!new)>(f: T -> T, op: (T, T) -> T, x: T, y: T)
  {
    f(op(x, y)) == op(f(x), f(y))
  }

  lemma {:induction false} IterateKeeps<T(!new)>(f: T -> T, op: (T, T) -> T, a: T, b: T, n: nat)
    requires forall x, y :: KeepsAt(f, op, x, y)
    ensures Iterate(f, op(a, b), n) == op(Iterate(f, a, n), Iterate(f, b, n))
  {
    if n > 0 {
      IterateKeeps(f, op, a, b, n - 1);
      assert KeepsAt(f, op, Iterate(f, a, n - 1), Iterate(f, b, n - 1));
    }
  }
}
