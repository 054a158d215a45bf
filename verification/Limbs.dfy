/** Little-endian sequences of 64-bit limbs as integers, and the carry chains that
    bignum.rs and ed25519.rs share. */
module Limbs {
  import opened Words
  import opened Bytes

  /** 2^(64 n). */
  function Scale(n: nat): (r: nat)
    ensures r > 0
  {
    if n == 0 then 1 else TWO64 * Scale(n - 1)
  }

  /** Limb i, zero past the end: `limbs.get(i).copied().unwrap_or(0)`. */
  function At(s: seq<u64>, i: nat): u64
  {
    if i < |s| then s[i] else 0
  }

  /** The integer of the low i limbs. */
  function Low(s: seq<u64>, i: nat): nat
  {
    if i == 0 then 0 else Low(s, i - 1) + At(s, i - 1) as nat * Scale(i - 1)
  }

  function Value(s: seq<u64>): nat
  {
    Low(s, |s|)
  }

  lemma {:induction false} LowBound(s: seq<u64>, i: nat)
    ensures Low(s, i) < Scale(i)
  {
    if i > 0 {
      LowBound(s, i - 1);
      ProductBound(At(s, i - 1) as int, Scale(i - 1), TWO64 - 1, Scale(i - 1));
      LessOne(Scale(i - 1));
    }
  }

  lemma LessOne(n: int)
    ensures (TWO64 - 1) * n == TWO64 * n - n
  {
  }

  /** Limbs past the end add nothing. */
  lemma {:induction false} LowPast(s: seq<u64>, i: nat)
    requires |s| <= i
    ensures Low(s, i) == Value(s)
  {
    if |s| < i { LowPast(s, i - 1); }
  }

  /** The low limbs are all that count. */
  lemma {:induction false} LowSame(s: seq<u64>, t: seq<u64>, i: nat)
    requires forall k :: 0 <= k < i ==> At(s, k) == At(t, k)
    ensures Low(s, i) == Low(t, i)
  {
    if i > 0 { LowSame(s, t, i - 1); }
  }

  lemma LowPush(s: seq<u64>, x: u64)
    ensures Value(s + [x]) == Value(s) + x as int * Scale(|s|)
  {
    LowSame(s + [x], s, |s|);
  }

  /** Storing x in limb k changes the value by the difference at that place. */
  lemma {:induction false} LowUpdate(s: seq<u64>, k: nat, x: u64, i: nat)
    requires k < |s|
    ensures Low(s[k := x], i) == Low(s, i) + (if k < i then (x as int - s[k] as int) * Scale(k) else 0)
  {
    if i > 0 {
      LowUpdate(s, k, x, i - 1);
      if k == i - 1 { Difference(x as int, s[k] as int, Scale(k)); }
    }
  }

  lemma Difference(x: int, y: int, n: int)
    ensures (x - y) * n == x * n - y * n
  {
  }

  lemma {:induction false} ScaleAdd(a: nat, b: nat)
    ensures Scale(a + b) == Scale(a) * Scale(b)
  {
    if a > 0 {
      ScaleAdd(a - 1, b);
      Associate(TWO64, Scale(a - 1), Scale(b));
    }
  }

  lemma Associate(x: int, y: int, z: int)
    ensures (x * y) * z == x * (y * z)
  {
  }

  /** One step of a carry chain, at weight w. */
  lemma CarryStep(a: int, b: int, c: int, s: int, c': int, w: int)
    requires a + b + c == s + TWO64 * c'
    ensures a * w + b * w + c * w == s * w + c' * (TWO64 * w)
  {
    assert (a + b + c) * w == a * w + b * w + c * w;
    assert (s + TWO64 * c') * w == s * w + (TWO64 * c') * w;
    assert (TWO64 * c') * w == c' * (TWO64 * w);
  }

  /** The two ways of summing limbs agree. */
  lemma {:induction false} WordsValueIs(s: seq<u64>)
    ensures WordsValue(s) == Value(s)
  {
    if s != [] {
      WordsValueIs(s[1..]);
      LowShift(s, |s| - 1);
    }
  }

  lemma {:induction false} LowShift(s: seq<u64>, i: nat)
    requires s != []
    ensures Low(s, i + 1) == s[0] as int + TWO64 * Low(s[1..], i)
  {
    if i == 0 {
      assert Low(s, 1) == Low(s, 0) + s[0] as int * Scale(0);
    } else {
      LowShift(s, i - 1);
      assert At(s[1..], i - 1) == At(s, i);
      Pull(Low(s[1..], i - 1), At(s, i) as int, Scale(i - 1));
    }
  }

  lemma Pull(low: int, x: int, w: int)
    ensures TWO64 * (low + x * w) == TWO64 * low + x * (TWO64 * w)
  {
  }

  // ---- addition and subtraction with carry ------------------------------------------

  /** Two overflowing additions: the limb and the sum of their carries. */
  function AddCarry(x: u64, y: u64, carry: u64): (r: (u64, u64))
    requires carry <= 1
    ensures r.1 <= 1 && x as int + y as int + carry as int == r.0 as int + TWO64 * r.1 as int
  {
    var first := x as int + y as int >= TWO64;
    var sum := ((x as int + y as int) % TWO64) as u64;
    var second := sum as int + carry as int >= TWO64;
    (((sum as int + carry as int) % TWO64) as u64, (if first then 1 else 0) + (if second then 1 else 0))
  }

  /** Two overflowing subtractions: the limb and the sum of their borrows. */
  function SubBorrow(x: u64, y: u64, borrow: u64): (r: (u64, u64))
    requires borrow <= 1
    ensures r.1 <= 1 && r.0 as int + y as int + borrow as int == x as int + TWO64 * r.1 as int
  {
    var first := x < y;
    var difference := ((x as int - y as int) % TWO64) as u64;
    var second := difference < borrow;
    (((difference as int - borrow as int) % TWO64) as u64, (if first then 1 else 0) + (if second then 1 else 0))
  }

  method Add(a: seq<u64>, b: seq<u64>) returns (s: seq<u64>, carry: u64)
    ensures |s| == (if |a| < |b| then |b| else |a|) && carry <= 1
    ensures Value(s) + carry as int * Scale(|s|) == Value(a) + Value(b)
  {
    var length := if |a| < |b| then |b| else |a|;
    s, carry := [], 0;
    for i := 0 to length
      invariant |s| == i && carry <= 1
      invariant Value(s) + carry as int * Scale(i) == Low(a, i) + Low(b, i)
    {
      var (limb, next) := AddCarry(At(a, i), At(b, i), carry);
      CarryStep(At(a, i) as int, At(b, i) as int, carry as int, limb as int, next as int, Scale(i));
      LowPush(s, limb);
      s, carry := s + [limb], next;
    }
    LowPast(a, length);
    LowPast(b, length);
  }

  method Sub(a: seq<u64>, b: seq<u64>) returns (d: seq<u64>, borrow: u64)
    requires |b| <= |a|
    ensures |d| == |a| && borrow <= 1
    ensures Value(d) + Value(b) == Value(a) + borrow as int * Scale(|a|)
  {
    d, borrow := [], 0;
    for i := 0 to |a|
      invariant |d| == i && borrow <= 1
      invariant Value(d) + Low(b, i) == Low(a, i) + borrow as int * Scale(i)
    {
      var (limb, next) := SubBorrow(a[i], At(b, i), borrow);
      CarryStep(limb as int, At(b, i) as int, borrow as int, a[i] as int, next as int, Scale(i));
      LowPush(d, limb);
      d, borrow := d + [limb], next;
    }
    LowPast(b, |a|);
  }

  /** Shifting left by one bit, `carry` coming in below. */
  method Shl1(a: seq<u64>, bit: u64) returns (s: seq<u64>, carry: u64)
    requires bit <= 1
    ensures |s| == |a| && carry <= 1
    ensures Value(s) + carry as int * Scale(|a|) == 2 * Value(a) + bit as int
  {
    s, carry := [], bit;
    for i := 0 to |a|
      invariant |s| == i && carry <= 1
      invariant Value(s) + carry as int * Scale(i) == 2 * Low(a, i) + bit as int
    {
      var next := a[i] / 0x8000_0000_0000_0000;
      var limb := ((2 * a[i] as int) % TWO64) as u64 + carry;
      CarryStep(a[i] as int, a[i] as int, carry as int, limb as int, next as int, Scale(i));
      LowPush(s, limb);
      s := s + [limb];
      carry := next;
    }
  }

  // ---- one row of a schoolbook product ------------------------------------------------

  /** Limb times limb plus limb plus carry never overflows 128 bits, and its high
      word is a carry again. */
  lemma RowStep(x: int, y: int, z: int, c: int)
    requires 0 <= x < TWO64 && 0 <= y < TWO64 && 0 <= z < TWO64 && 0 <= c < TWO64
    ensures 0 <= x * y + z + c < TWO64 * TWO64
  {
    ProductBound(x, y, TWO64 - 1, TWO64 - 1);
  }

  lemma RowCarry(x: int, y: int, z: int, c: int, limb: int, c': int, w: int)
    requires x * y + z + c == limb + TWO64 * c'
    ensures x * (y * w) + c * w == (limb - z) * w + c' * (TWO64 * w)
  {
    assert (x * y + z + c) * w == (x * y) * w + z * w + c * w;
    assert (limb + TWO64 * c') * w == limb * w + c' * (TWO64 * w);
    Associate(x, y, w);
    Difference(limb, z, w);
  }

  /** Adds x * b at limb i; the carry is what is left for limb i + |b|. */
  method AddRow(p: seq<u64>, i: nat, x: u64, b: seq<u64>) returns (r: seq<u64>, carry: u64)
    requires i + |b| <= |p|
    ensures |r| == |p|
    ensures forall k :: i + |b| <= k < |p| ==> r[k] == p[k]
    ensures Value(r) + carry as int * Scale(i + |b|) == Value(p) + x as int * (Value(b) * Scale(i))
  {
    r, carry := p, 0;
    for j := 0 to |b|
      invariant |r| == |p|
      invariant forall k :: i + j <= k < |p| ==> r[k] == p[k]
      invariant Value(r) + carry as int * Scale(i + j) == Value(p) + x as int * (Low(b, j) * Scale(i))
    {
      RowStep(x as int, b[j] as int, r[i + j] as int, carry as int);
      var product := x as int * b[j] as int + r[i + j] as int + carry as int;
      var limb, next := (product % TWO64) as u64, (product / TWO64) as u64;
      RowCarry(x as int, b[j] as int, r[i + j] as int, carry as int, limb as int, next as int, Scale(i + j));
      LowUpdate(r, i + j, limb, |r|);
      RowPlace(x as int, Low(b, j), b[j] as int, i, j);
      r := r[i + j := limb];
      carry := next;
    }
  }

  lemma RowPlace(x: int, low: int, y: int, i: nat, j: nat)
    ensures x * ((low + y * Scale(j)) * Scale(i)) == x * (low * Scale(i)) + x * (y * Scale(i + j))
  {
    ScaleAdd(i, j);
    PlaceProduct(x, low, y, Scale(i), Scale(j));
  }

  lemma PlaceProduct(x: int, low: int, y: int, u: int, v: int)
    ensures x * ((low + y * v) * u) == x * (low * u) + x * (y * (u * v))
  {
    assert (low + y * v) * u == low * u + (y * v) * u;
    assert (y * v) * u == y * (u * v);
  }

  /** One more row of a product by rows. */
  lemma RowAdds(low: int, x: int, b: int, w: int)
    ensures low * b + x * (b * w) == (low + x * w) * b
  {
    assert x * (b * w) == (x * w) * b;
  }
}
