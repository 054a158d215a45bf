/** Unsigned big integers (bignum.rs): little-endian 64-bit limbs with no high
    zero, refining the natural numbers. */
module Bignum {
  import opened Options
  import opened Words
  import opened Bytes
  import opened Limbs
  import opened Monoid

  datatype Ordering = Less | Equal | Greater

  datatype Big = Big(limbs: seq<u64>)

  /** No high zero limb. */
  predicate Canonical(a: Big)
  {
    a.limbs == [] || a.limbs[|a.limbs| - 1] != 0
  }

  function Int(a: Big): nat
  {
    Value(a.limbs)
  }

  lemma TopNonzero(s: seq<u64>)
    requires s != []
    ensures s[|s| - 1] != 0 <==> Value(s) >= Scale(|s| - 1)
  {
    var n := |s| - 1;
    LowBound(s, n);
    if s[n] != 0 { ProductBound(1, Scale(n), s[n] as int, Scale(n)); }
  }

  /** More limbs make a larger number. */
  lemma LengthOrders(a: Big, b: Big)
    requires Canonical(b) && |a.limbs| < |b.limbs|
    ensures Int(a) < Int(b)
  {
    TopNonzero(b.limbs);
    LowBound(a.limbs, |a.limbs|);
    ScaleMonotone(|a.limbs|, |b.limbs| - 1);
  }

  lemma {:induction false} ScaleMonotone(a: nat, b: nat)
    requires a <= b
    ensures Scale(a) <= Scale(b)
  {
    if a < b { ScaleMonotone(a, b - 1); }
  }

  method Trim(limbs: seq<u64>) returns (r: Big)
    ensures Canonical(r) && Int(r) == Value(limbs)
  {
    var s := limbs;
    while s != [] && s[|s| - 1] == 0
      invariant Value(s) == Value(limbs)
      decreases |s|
    {
      LowPush(s[..|s| - 1], 0);
      assert s == s[..|s| - 1] + [0];
      s := s[..|s| - 1];
    }
    r := Big(s);
  }

  // ---- comparing ------------------------------------------------------------------

  /** The highest differing limb decides. */
  lemma {:induction false} TopDiffers(a: seq<u64>, b: seq<u64>, i: nat, n: nat)
    requires i < n && At(a, i) < At(b, i) && forall k :: i < k < n ==> At(a, k) == At(b, k)
    ensures Low(a, n) < Low(b, n)
  {
    if i == n - 1 {
      LowBound(a, i);
      var x, y, w := At(a, i) as int, At(b, i) as int, Scale(i);
      ProductBound(x + 1, w, y, w);
      assert (x + 1) * w == x * w + w;
    } else {
      TopDiffers(a, b, i, n - 1);
    }
  }

  method Cmp(a: Big, b: Big) returns (o: Ordering)
    requires Canonical(a) && Canonical(b)
    ensures o == if Int(a) < Int(b) then Less else if Int(a) == Int(b) then Equal else Greater
    ensures o == Equal <==> a == b
  {
    if |a.limbs| != |b.limbs| {
      if |a.limbs| < |b.limbs| {
        LengthOrders(a, b);
        return Less;
      }
      LengthOrders(b, a);
      return Greater;
    }
    var i := |a.limbs|;
    while i > 0
      invariant 0 <= i <= |a.limbs| && a.limbs[i..] == b.limbs[i..]
    {
      i := i - 1;
      if a.limbs[i] != b.limbs[i] {
        assert forall k :: i < k < |a.limbs| ==> At(a.limbs, k) == a.limbs[i + 1..][k - i - 1] == At(b.limbs, k);
        if a.limbs[i] < b.limbs[i] {
          TopDiffers(a.limbs, b.limbs, i, |a.limbs|);
          return Less;
        }
        TopDiffers(b.limbs, a.limbs, i, |a.limbs|);
        return Greater;
      }
    }
    o := Equal;
  }

  /** Two canonical numbers with the same value are the same limbs. */
  lemma {:induction false} Unique(a: seq<u64>, b: seq<u64>)
    requires Canonical(Big(a)) && Canonical(Big(b)) && Value(a) == Value(b)
    ensures a == b
  {
    if |a| < |b| { LengthOrders(Big(a), Big(b)); }
    if |b| < |a| { LengthOrders(Big(b), Big(a)); }
    if a != b {
      var i := LastDifference(a, b, |a|);
      if a[i] < b[i] { TopDiffers(a, b, i, |a|); } else { TopDiffers(b, a, i, |a|); }
    }
  }

  lemma {:induction false} LastDifference(a: seq<u64>, b: seq<u64>, n: nat) returns (i: nat)
    requires |a| == |b| && n <= |a| && a[..n] != b[..n]
    ensures i < n && a[i] != b[i] && forall k :: i < k < n ==> a[k] == b[k]
  {
    if a[n - 1] != b[n - 1] {
      i := n - 1;
    } else {
      assert a[..n] == a[..n - 1] + [a[n - 1]] && b[..n] == b[..n - 1] + [b[n - 1]];
      i := LastDifference(a, b, n - 1);
    }
  }

  // ---- addition, subtraction, multiplication ------------------------------------------

  method Add(a: Big, b: Big) returns (r: Big)
    ensures Canonical(r) && Int(r) == Int(a) + Int(b)
  {
    var s, carry := Limbs.Add(a.limbs, b.limbs);
    if carry > 0 {
      LowPush(s, carry);
      s := s + [carry];
    }
    r := Trim(s);
  }

  method CheckedSub(a: Big, b: Big) returns (r: Option<Big>)
    requires Canonical(a) && Canonical(b)
    ensures r.None? <==> Int(a) < Int(b)
    ensures r.Some? ==> Canonical(r.value) && Int(r.value) == Int(a) - Int(b)
  {
    var o := Cmp(a, b);
    if o == Less {
      return None;
    }
    if |a.limbs| < |b.limbs| { LengthOrders(a, b); }
    var d, borrow := Limbs.Sub(a.limbs, b.limbs);
    LowBound(d, |d|);
    Times1(borrow as int, Scale(|d|));
    var t := Trim(d);
    r := Some(t);
  }

  lemma Times1(x: int, n: int)
    ensures x == 1 ==> x * n == n
  {
  }

  method Mul(a: Big, b: Big) returns (r: Big)
    ensures Canonical(r) && Int(r) == Int(a) * Int(b)
  {
    if a.limbs == [] || b.limbs == [] {
      return Big([]);
    }
    var n := |a.limbs| + |b.limbs|;
    var limbs: seq<u64> := seq(n, i => 0);
    ZeroValue(n);
    for i := 0 to |a.limbs|
      invariant |limbs| == n
      invariant forall k :: i + |b.limbs| <= k < n ==> limbs[k] == 0
      invariant Value(limbs) == Low(a.limbs, i) * Value(b.limbs)
    {
      ghost var before := Value(limbs);
      var carry;
      limbs, carry := AddRow(limbs, i, a.limbs[i], b.limbs);
      var k := i + |b.limbs|;
      // The limb the carry lands in is still zero, so one step settles it.
      while carry > 0
        invariant k == i + |b.limbs| || (carry == 0 && k == i + |b.limbs| + 1)
        invariant |limbs| == n
        invariant forall m :: k <= m < n ==> limbs[m] == 0
        invariant Value(limbs) + carry as int * Scale(i + |b.limbs|) == before + a.limbs[i] as int * (Value(b.limbs) * Scale(i))
        decreases carry
      {
        var sum := limbs[k] as int + carry as int;
        LowUpdate(limbs, k, (sum % TWO64) as u64, n);
        limbs := limbs[k := (sum % TWO64) as u64];
        carry := (sum / TWO64) as u64;
        k := k + 1;
      }
      RowAdds(Low(a.limbs, i), a.limbs[i] as int, Value(b.limbs), Scale(i));
    }
    r := Trim(limbs);
  }

  lemma {:induction false} ZeroValue(n: nat)
    ensures Value(seq(n, i => 0)) == 0
  {
    ZeroLow(seq(n, i => 0), n);
  }

  lemma {:induction false} ZeroLow(s: seq<u64>, i: nat)
    requires forall k :: 0 <= k < |s| ==> s[k] == 0
    ensures Low(s, i) == 0
  {
    if i > 0 { ZeroLow(s, i - 1); }
  }

  /** Doubling in place. */
  method Shl1(a: Big) returns (r: Big)
    requires Canonical(a)
    ensures Canonical(r) && Int(r) == 2 * Int(a)
  {
    var s, carry := Limbs.Shl1(a.limbs, 0);
    if carry > 0 {
      LowPush(s, carry);
      s := s + [carry];
    } else if s != [] {
      TopNonzero(a.limbs);
      TopNonzero(s);
    }
    r := Big(s);
  }

  // ---- bits -------------------------------------------------------------------------

  function BitLength(x: nat): nat
  {
    if x == 0 then 0 else 1 + BitLength(x / 2)
  }

  lemma {:induction false} BitLengthBounds(x: nat)
    requires x > 0
    ensures BitLength(x) > 0 && Pow2(BitLength(x) - 1) <= x < Pow2(BitLength(x))
  {
    if x > 1 { BitLengthBounds(x / 2); } else { assert BitLength(0) == 0; }
  }

  lemma {:induction false} BitLengthAtMost(x: nat, k: nat)
    requires x < Pow2(k)
    ensures BitLength(x) <= k
  {
    if x > 0 { BitLengthAtMost(x / 2, k - 1); }
  }

  lemma {:induction false} ScaleIsPow2(n: nat)
    ensures Scale(n) == Pow2(64 * n)
  {
    if n > 0 {
      ScaleIsPow2(n - 1);
      Pow2Of64();
      Pow2Add(64, 64 * (n - 1));
      assert 64 + 64 * (n - 1) == 64 * n;
    }
  }

  /** `leading_zeros`: a 64-bit word has 64 bits less the zeros above its top bit. */
  function LeadingZeros(x: u64): (r: nat)
    requires x > 0
    ensures r < 64 && Pow2(63 - r) <= x as int < Pow2(64 - r)
  {
    BitLengthBounds(x as nat);
    Pow2Of64();
    BitLengthAtMost(x as nat, 64);
    64 - BitLength(x as nat)
  }

  /** The number of bits up to the highest set one. */
  method Bits(a: Big) returns (r: nat)
    requires Canonical(a)
    ensures Int(a) < Pow2(r) && (r > 0 ==> Pow2(r - 1) <= Int(a)) && (r == 0 <==> a.limbs == [])
  {
    if a.limbs == [] {
      return 0;
    }
    var n := |a.limbs|;
    var top := a.limbs[n - 1];
    var z := LeadingZeros(top);
    r := n * 64 - z;
    ScaleIsPow2(n - 1);
    LowBound(a.limbs, n - 1);
    Pow2Add(64 * (n - 1), 64 - z);
    Pow2Add(64 * (n - 1), 63 - z);
    TopBits(Low(a.limbs, n - 1), top as int, Scale(n - 1), Pow2(63 - z), Pow2(64 - z));
    assert 64 * (n - 1) + (64 - z) == r && 64 * (n - 1) + (63 - z) == r - 1;
  }

  lemma TopBits(low: int, top: int, w: int, lo: int, hi: int)
    requires 0 <= low < w && 0 <= lo <= top < hi
    ensures w * lo <= low + top * w < w * hi
  {
    ProductBound(lo, w, top, w);
    ProductBound(top + 1, w, hi, w);
    assert (top + 1) * w == top * w + w;
  }

  /** Any limb splits the number in what is below it and what is from it up. */
  lemma {:induction false} SplitAt(s: seq<u64>, q: nat, n: nat) returns (high: nat)
    requires q < n
    ensures Low(s, n) == Low(s, q) + Scale(q) * (At(s, q) as nat + TWO64 * high)
  {
    if n == q + 1 {
      high := 0;
    } else {
      var h := SplitAt(s, q, n - 1);
      var x := At(s, n - 1) as nat;
      high := h + x * Scale(n - 2 - q);
      ScaleAdd(q + 1, n - 2 - q);
      assert q + 1 + (n - 2 - q) == n - 1;
      SplitStep(Scale(q), At(s, q) as nat, h, x, Scale(n - 2 - q));
    }
  }

  lemma SplitStep(w: nat, limb: nat, h: nat, x: nat, v: nat)
    ensures w * (limb + TWO64 * h) + x * ((TWO64 * w) * v) == w * (limb + TWO64 * (h + x * v))
  {
    assert x * ((TWO64 * w) * v) == w * (TWO64 * (x * v));
    assert w * (limb + TWO64 * h) + w * (TWO64 * (x * v)) == w * (limb + TWO64 * h + TWO64 * (x * v));
  }

  /** The bit of the whole number is the bit of the limb that holds it. */
  lemma BitOfLimb(s: seq<u64>, index: nat)
    ensures Value(s) / Pow2(index) % 2 == At(s, index / 64) as nat / Pow2(index % 64) % 2
  {
    var q, r := index / 64, index % 64;
    LowPast(s, |s| + q + 1);
    var high := SplitAt(s, q, |s| + q + 1);
    LowBound(s, q);
    ScaleIsPow2(q);
    Pow2Add(64 * q, r);
    DivMul(Value(s), Scale(q), Pow2(r));
    ModUnique(Value(s), Scale(q), At(s, q) as nat + TWO64 * high, Low(s, q));
    Pow2Of64();
    Pow2Add(r, 64 - r);
    Pow2Add(1, 63 - r);
    assert Pow2(1) == 2;
    BitBelow(At(s, q) as nat, high, Pow2(r), Pow2(63 - r), TWO64);
  }

  function Bit(a: Big, index: nat): (r: bool)
    ensures r <==> Int(a) / Pow2(index) % 2 == 1
  {
    BitOfLimb(a.limbs, index);
    At(a.limbs, index / 64) as nat / Pow2(index % 64) % 2 == 1
  }

  /** The number bits i to n - 1 make, read from the top. */
  function BitsFrom(a: Big, i: nat, n: nat): nat
    decreases n - i
  {
    if i >= n then 0 else 2 * BitsFrom(a, i + 1, n) + (if Bit(a, i) then 1 else 0)
  }

  lemma {:induction false} BitsFromIs(a: Big, i: nat, n: nat)
    requires i <= n && Int(a) < Pow2(n)
    ensures BitsFrom(a, i, n) == Int(a) / Pow2(i)
    decreases n - i
  {
    if i == n {
      ModUnique(Int(a), Pow2(n), 0, Int(a));
    } else {
      BitsFromIs(a, i + 1, n);
      NextBit(Int(a), i);
    }
  }

  /** Reading every bit from the top gives the number. */
  lemma AllBits(a: Big, n: nat)
    requires Int(a) < Pow2(n)
    ensures BitsFrom(a, 0, n) == Int(a)
  {
    BitsFromIs(a, 0, n);
    assert Int(a) / 1 == Int(a);
  }

  // ---- remainders -------------------------------------------------------------------

  /** The low bit of an even number, set. */
  method SetLowBit(a: Big) returns (r: Big)
    requires Canonical(a) && Int(a) % 2 == 0
    ensures Canonical(r) && Int(r) == Int(a) + 1
  {
    if a.limbs == [] {
      r := Big([1]);
      assert Low([1], 0) == 0;
    } else {
      var s := a.limbs;
      LowBitOf(s);
      r := Big(s[0 := s[0] + 1]);
      LowUpdate(s, 0, s[0] + 1, |s|);
    }
  }

  lemma LowBitOf(s: seq<u64>)
    requires s != [] && Value(s) % 2 == 0
    ensures s[0] % 2 == 0 && s[0] as int + 1 < TWO64
  {
    var h := SplitAt(s, 0, |s|);
    LowParity(s[0] as int, h);
  }

  lemma LowParity(x: int, h: nat)
    requires (x + TWO64 * h) % 2 == 0
    ensures x % 2 == 0
  {
    assert x + TWO64 * h == x + 2 * (0x8000_0000_0000_0000 * h);
  }

  /** Shift and subtract: the remainder for every number and nonzero modulus. */
  method Rem(a: Big, m: Big) returns (r: Big)
    requires Canonical(a) && Canonical(m) && m.limbs != []
    ensures Canonical(r) && Int(m) > 0 && Int(r) == Int(a) % Int(m)
  {
    TopNonzero(m.limbs);
    var o := Cmp(a, m);
    if o == Less {
      ModUnique(Int(a), Int(m), 0, Int(a));
      return a;
    }
    r := Big([]);
    var index := Bits(a);
    ghost var n, k := index, 0;
    AllBits(a, n);
    while index > 0
      invariant index <= n && Canonical(r) && Int(r) < Int(m)
      invariant BitsFrom(a, index, n) == Int(m) * k + Int(r)
    {
      index := index - 1;
      r, k := ReduceStep(r, Bit(a, index), m, k);
    }
    ModUnique(Int(a), Int(m), k, Int(r));
  }

  /** Shift the next bit in, and take the modulus off once when it fits: the
      quotient so far is k, or 2 k and one more. */
  method ReduceStep(r: Big, bit: bool, m: Big, ghost k: int) returns (s: Big, ghost k': int)
    requires Canonical(r) && Canonical(m) && Int(r) < Int(m)
    ensures Canonical(s) && Int(s) < Int(m)
    ensures 2 * (Int(m) * k + Int(r)) + (if bit then 1 else 0) == Int(m) * k' + Int(s)
  {
    s := Shl1(r);
    if bit {
      s := SetLowBit(s);
    }
    k' := 2 * k;
    assert Int(m) * (2 * k) == 2 * (Int(m) * k) && Int(m) * (2 * k + 1) == 2 * (Int(m) * k) + Int(m);
    var o := Cmp(s, m);
    if o != Less {
      var d := CheckedSub(s, m);
      s := d.value;
      k' := 2 * k + 1;
    }
  }

  method ModMul(a: Big, b: Big, m: Big) returns (r: Big)
    requires Canonical(m) && m.limbs != []
    ensures Canonical(r) && Int(m) > 0 && Int(r) == (Int(a) * Int(b)) % Int(m)
  {
    var p := Mul(a, b);
    r := Rem(p, m);
  }

  method ModAdd(a: Big, b: Big, m: Big) returns (r: Big)
    requires Canonical(m) && m.limbs != []
    ensures Canonical(r) && Int(m) > 0 && Int(r) == (Int(a) + Int(b)) % Int(m)
  {
    var s := Add(a, b);
    r := Rem(s, m);
  }

  /** Both already reduced. */
  method ModSub(a: Big, b: Big, m: Big) returns (r: Big)
    requires Canonical(a) && Canonical(b) && Canonical(m) && Int(a) < Int(m) && Int(b) < Int(m)
    ensures Canonical(r) && Int(r) == (Int(a) as int - Int(b)) % Int(m)
  {
    var d := CheckedSub(a, b);
    if d.Some? {
      r := d.value;
      ModUnique(Int(a) as int - Int(b), Int(m), 0, Int(r));
    } else {
      var s := Add(a, m);
      d := CheckedSub(s, b);
      r := d.value;
      ModUnique(Int(a) as int - Int(b), Int(m), -1, Int(r));
    }
  }

  /** Multiplication modulo m. */
  function Modulo(m: nat): Op<int>
    requires m > 0
  {
    Op(1 % m, (x: int, y: int) => MulMod(x, y, m))
  }

  function MulMod(x: int, y: int, m: nat): int
  {
    if m == 0 then 0 else (x * y) % m
  }

  /** x^e modulo m. */
  function PowMod(x: nat, e: nat, m: nat): int
    requires m > 0
  {
    Repeat(Modulo(m), x, e)
  }

  lemma MulModRight(x: int, y: int, m: int)
    requires m > 0
    ensures (x * (y % m)) % m == (x * y) % m
  {
    var q, r := y / m, y % m;
    QuotientRemainder(y, m);
    assert x * (m * q + r) == x * (m * q) + x * r;
    assert x * (m * q) == m * (x * q);
    ShiftMod(x * r, x * q, m);
  }

  lemma MulModLeft(x: int, y: int, m: int)
    requires m > 0
    ensures ((x % m) * y) % m == (x * y) % m
  {
    MulModRight(y, x, m);
    assert y * (x % m) == (x % m) * y && y * x == x * y;
  }

  lemma ShiftMod(x: int, k: int, m: int)
    requires m > 0
    ensures (m * k + x) % m == x % m
  {
    QuotientRemainder(x, m);
    assert m * (k + x / m) == m * k + m * (x / m);
    ModUnique(m * k + x, m, k + x / m, x % m);
  }

  lemma ModuloLaws(m: nat)
    requires m > 0
    ensures Laws(Modulo(m))
  {
    var o := Modulo(m);
    forall x: int, y: int, z: int ensures Associates(o, x, y, z) {
      MulModLeft(x * y, z, m);
      MulModRight(x, y * z, m);
      assert (x * y) * z == x * (y * z);
    }
    forall x: int, y: int ensures UnitKeeps(o, x, y) {
      OneKeeps(x * y, m);
    }
    OneKeeps(1, m);
  }

  lemma OneKeeps(x: int, m: nat)
    requires m > 0
    ensures ((1 % m) * (x % m)) % m == x % m == ((x % m) * (1 % m)) % m
  {
    MulModLeft(1, x % m, m);
    MulModRight(x % m, 1, m);
    ModUnique(x % m, m, 0, x % m);
  }

  /** Powers of a base and of its remainder are the same. */
  lemma {:induction false} PowModBase(x: nat, e: nat, m: nat)
    requires m > 0
    ensures PowMod(x % m, e, m) == PowMod(x, e, m)
  {
    if e > 0 {
      PowModBase(x, e - 1, m);
      MulModLeft(x, PowMod(x, e - 1, m), m);
    }
  }

  /** Left to right by squaring: the power for every base, exponent and modulus. */
  method ModPow(a: Big, e: Big, m: Big) returns (r: Big)
    requires Canonical(a) && Canonical(e) && Canonical(m) && m.limbs != []
    ensures Canonical(r) && Int(m) > 0 && Int(r) == PowMod(Int(a), Int(e), Int(m))
  {
    var base := Rem(a, m);
    assert Low([1], 0) == 0;
    r := Rem(Big([1]), m);
    var index := Bits(e);
    ghost var n := index;
    AllBits(e, n);
    ModuloLaws(Int(m));
    while index > 0
      invariant index <= n && Canonical(r) && Int(r) == PowMod(Int(base), BitsFrom(e, index, n), Int(m))
    {
      index := index - 1;
      RepeatBit(Modulo(Int(m)), Int(base), BitsFrom(e, index + 1, n), if Bit(e, index) then 1 else 0);
      r := ModMul(r, r, m);
      if Bit(e, index) {
        assert Int(r) * Int(base) == Int(base) * Int(r);
        r := ModMul(r, base, m);
      }
    }
    PowModBase(Int(a), Int(e), Int(m));
  }

  /** Fermat's inverse a^(m-2); None exactly when m divides a. */
  method ModInversePrime(a: Big, m: Big) returns (r: Option<Big>)
    requires Canonical(a) && Canonical(m) && m.limbs != []
    ensures Int(m) > 0 && (r.None? <==> Int(a) % Int(m) == 0)
    ensures r.Some? ==> Canonical(r.value) && Int(m) >= 2 && Int(r.value) == PowMod(Int(a), Int(m) - 2, Int(m))
  {
    var reduced := Rem(a, m);
    if reduced.limbs == [] {
      return None;
    }
    TopNonzero(reduced.limbs);
    assert Low([2], 0) == 0 && Value([2]) == 2;
    var exponent := CheckedSub(m, Big([2]));
    if exponent.None? {
      return None;
    }
    var p := ModPow(reduced, exponent.value, m);
    PowModBase(Int(a), Int(m) - 2, Int(m));
    r := Some(p);
  }

  // ---- big-endian bytes --------------------------------------------------------------

  method FromBe(bytes: seq<u8>) returns (r: Big)
    ensures Canonical(r) && Int(r) == BigEndian(bytes)
  {
    var limbs: seq<u64> := [];
    var end := |bytes|;
    assert bytes[..end] == bytes;
    while end > 0
      invariant 0 <= end <= |bytes|
      invariant Value(limbs) + Scale(|limbs|) * BigEndian(bytes[..end]) == BigEndian(bytes)
      decreases end
    {
      var start := if end < 8 then 0 else end - 8;
      var chunk := bytes[start..end];
      OneWord(chunk);
      var limb := BigEndian(chunk) as u64;
      LastWord(bytes, start, end);
      PushLimb(limbs, limb, BigEndian(bytes[..start]));
      limbs := limbs + [limb];
      end := start;
    }
    assert bytes[..end] == [];
    r := Trim(limbs);
  }

  lemma OneWord(chunk: seq<u8>)
    requires |chunk| <= 8
    ensures BigEndian(chunk) < TWO64
  {
    LittleBound(Reverse(chunk));
    Pow2Of64();
    Pow2Monotone(8 * |chunk|, 64);
  }

  lemma LastWord(bytes: seq<u8>, start: nat, end: nat)
    requires start <= end <= |bytes| && (end - start == 8 || (start == 0 && end < 8))
    ensures BigEndian(bytes[..end]) == BigEndian(bytes[start..end]) + TWO64 * BigEndian(bytes[..start])
  {
    CutWord(bytes[..end], start);
    assert bytes[..end][..start] == bytes[..start] && bytes[..end][start..] == bytes[start..end];
  }

  /** The number so far, with the lowest word of the rest taken over. */
  lemma PushLimb(limbs: seq<u64>, limb: u64, rest: nat)
    ensures Value(limbs + [limb]) + Scale(|limbs + [limb]|) * rest == Value(limbs) + Scale(|limbs|) * (limb as int + TWO64 * rest)
  {
    LowPush(limbs, limb);
    Places(Scale(|limbs|), limb as int, rest);
  }

  lemma Places(w: int, limb: int, rest: int)
    ensures w * (limb + TWO64 * rest) == limb * w + (TWO64 * w) * rest
  {
    assert w * (TWO64 * rest) == (TWO64 * w) * rest;
  }

  /** The last eight bytes, or all of fewer, are the lowest word. */
  lemma CutWord(s: seq<u8>, start: nat)
    requires start <= |s| && (|s| - start == 8 || (start == 0 && |s| < 8))
    ensures BigEndian(s) == BigEndian(s[start..]) + TWO64 * BigEndian(s[..start])
  {
    var low, high := Reverse(s[start..]), Reverse(s[..start]);
    assert Reverse(s) == low + high;
    if start == 0 {
      assert high == [] && low + high == low;
    } else {
      AppendWord(low, high);
    }
  }

  lemma {:induction false} FlatAt(w: seq<u64>, i: nat, j: nat)
    requires i < |w| && j < 8
    ensures 8 * i + j < |FromWords(w)| && FromWords(w)[8 * i + j] == LittleBytes(w[i] as nat, 8)[j]
  {
    if i > 0 { FlatAt(w[1..], i - 1, j); }
  }

  /** Byte k of those written so far. */
  function Digit(flat: seq<u8>, k: nat, written: nat): u8
    requires written <= |flat|
  {
    if k < written then flat[k] else 0
  }

  /** `length` big-endian bytes, or None exactly when the number needs more. */
  method ToBe(a: Big, length: nat) returns (r: Option<seq<u8>>)
    requires Canonical(a)
    ensures r.None? <==> Int(a) >= Pow2(8 * length)
    ensures r.Some? ==> |r.value| == length && BigEndian(r.value) == Int(a)
  {
    var bits := Bits(a);
    if bits > length * 8 {
      Pow2Monotone(8 * length, bits - 1);
      return None;
    }
    Pow2Monotone(bits, 8 * length);
    var out: seq<u8> := seq(length, i => 0);
    ghost var flat := FromWords(a.limbs);
    for index := 0 to |a.limbs|
      invariant |out| == length
      invariant forall m :: 0 <= m < length ==> out[m] == Digit(flat, length - 1 - m, 8 * index)
    {
      var bytes := LittleBytes(a.limbs[index] as nat, 8);
      for j := 0 to 8
        invariant |out| == length
        invariant forall m :: 0 <= m < length ==> out[m] == Digit(flat, length - 1 - m, 8 * index + j)
      {
        var at := index * 8 + j;
        FlatAt(a.limbs, index, j);
        if at < length {
          out := out[length - 1 - at := bytes[j]];
        }
      }
    }
    ghost var low := Reverse(out);
    assert forall k :: 0 <= k < length ==> low[k] == Digit(flat, k, |flat|);
    PaddedValue(flat, low, Int(a));
    FromWordsValue(a.limbs);
    WordsValueIs(a.limbs);
    r := Some(out);
  }

  /** Bytes cut at, or padded with zeros to, a length the number fits in. */
  lemma PaddedValue(flat: seq<u8>, r: seq<u8>, n: nat)
    requires forall k :: 0 <= k < |r| ==> r[k] == if k < |flat| then flat[k] else 0
    ensures Little(flat) == n && n < Pow2(8 * |r|) ==> Little(r) == n
  {
    if |flat| <= |r| {
      var zeros := seq<u8>(|r| - |flat|, i => 0);
      assert r == flat + zeros;
      LittleAppend(flat, zeros);
      LittleZeros(|r| - |flat|);
    } else {
      var high := flat[|r|..];
      assert flat == r + high;
      LittleAppend(r, high);
      if Little(high) > 0 { ProductBound(Pow2(8 * |r|), 1, Pow2(8 * |r|), Little(high)); }
    }
  }

  /** Byte strings of one length that state the same number are the same: reading
      bytes and writing them back at their length gives them again. */
  lemma BigEndianOnce(a: seq<u8>, b: seq<u8>)
    requires |a| == |b| && BigEndian(a) == BigEndian(b)
    ensures a == b
  {
    BytesRoundTrip(Reverse(a));
    BytesRoundTrip(Reverse(b));
    assert Reverse(Reverse(a)) == a && Reverse(Reverse(b)) == b;
  }
}
