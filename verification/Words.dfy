/** Machine words as bounded integers, and the bitwise operators on them.

    The word types are newtypes, so the verifier proves at every `+`, `-` and
    `*` that nothing overflows.  A right shift by k is written `/ 2^k`, a mask of the
    low k bits `% 2^k` and a mask of the bits lo..hi `% 2^hi / 2^lo * 2^lo` (AndMask
    and AndRange say this is what `&` computes); `|` and `^` are the operators below. */
module Words {

  newtype u8 = x: int | 0 <= x < 0x100
  newtype u16 = x: int | 0 <= x < 0x1_0000
  newtype u32 = x: int | 0 <= x < 0x1_0000_0000
  newtype u64 = x: int | 0 <= x < 0x1_0000_0000_0000_0000
  newtype u128 = x: int | 0 <= x < 0x1_0000_0000_0000_0000_0000_0000_0000_0000

  function Pow2(k: nat): (r: nat)
    ensures r > 0
  {
    if k == 0 then 1 else 2 * Pow2(k - 1)
  }

  lemma {:induction false} Pow2Add(a: nat, b: nat)
    ensures Pow2(a + b) == Pow2(a) * Pow2(b)
  {
    if a > 0 {
      Pow2Add(a - 1, b);
      assert Pow2(a + b) == 2 * Pow2(a - 1 + b);
      assert Pow2(a) * Pow2(b) == 2 * (Pow2(a - 1) * Pow2(b));
    }
  }

  lemma {:induction false} Pow2Monotone(a: nat, b: nat)
    requires a <= b
    ensures Pow2(a) <= Pow2(b)
  {
    if a < b { Pow2Monotone(a, b - 1); }
  }

  /** The product of two bounded factors is bounded by the product of the bounds. */
  lemma ProductBound(a: int, b: int, m: int, n: int)
    requires 0 <= a <= m && 0 <= b <= n
    ensures 0 <= a * b <= m * n
  {
    assert a * b <= m * b;
    assert m * b <= m * n;
  }

  // ---- reading bits ---------------------------------------------------------------

  lemma DivMul(x: nat, m: nat, n: nat)
    requires m > 0 && n > 0
    ensures x / (m * n) == x / m / n
  {
    var a, b, q, r := x / m, x % m, x / m / n, x / m % n;
    QuotientRemainder(x, m);
    QuotientRemainder(a, n);
    DivMulAt(x, m, n, b, q, r);
  }

  lemma DivMulAt(x: nat, m: nat, n: nat, b: nat, q: nat, r: nat)
    requires m > 0 && n > 0 && b < m && r < n && x == m * (n * q + r) + b
    ensures x / (m * n) == q
  {
    assert m * (n * q + r) == (m * n) * q + m * r;
    ProductBound(m, r, m, n - 1);
    assert m * (n - 1) == m * n - m;
    ModUnique(x, m * n, q, m * r + b);
  }

  function ShiftRight(x: nat, k: nat): (r: nat)
    ensures r == x / Pow2(k)
  {
    NotNegative(x, Pow2(k));
    x / Pow2(k)
  }

  lemma NotNegative(x: nat, m: nat)
    requires m > 0
    ensures x / m >= 0
  {
  }

  /** A bit below the top of a limb does not see the limbs above. */
  lemma BitBelow(limb: nat, high: nat, p: nat, half: nat, t: nat)
    requires p > 0 && p * (2 * half) == t
    ensures (limb + t * high) / p % 2 == limb / p % 2
  {
    QuotientRemainder(limb, p);
    var k := half * high;
    assert t * high == p * (2 * k) by { assert (p * (2 * half)) * high == p * (2 * (half * high)); }
    assert p * (limb / p) + p * (2 * k) == p * (limb / p + 2 * k);
    ModUnique(limb + t * high, p, limb / p + 2 * k, limb % p);
  }

  /** Taking one more bit doubles the number read so far and adds the bit. */
  lemma NextBit(x: nat, index: nat)
    ensures x / Pow2(index) == 2 * (x / Pow2(index + 1)) + x / Pow2(index) % 2
  {
    DivMul(x, Pow2(index), 2);
    assert Pow2(index + 1) == Pow2(index) * 2;
  }

  // ---- bitwise operators, bit by bit -------------------------------------

  function And(a: nat, b: nat): nat
  {
    if a == 0 || b == 0 then 0
    else 2 * And(a / 2, b / 2) + (if a % 2 == 1 && b % 2 == 1 then 1 else 0)
  }

  function Or(a: nat, b: nat): nat
    decreases a + b
  {
    if a == 0 then b else if b == 0 then a
    else 2 * Or(a / 2, b / 2) + (if a % 2 == 1 || b % 2 == 1 then 1 else 0)
  }

  function Xor(a: nat, b: nat): nat
    decreases a + b
  {
    if a == 0 then b else if b == 0 then a
    else 2 * Xor(a / 2, b / 2) + (if a % 2 != b % 2 then 1 else 0)
  }

  /** x & (2^k - 1) is x mod 2^k. */
  lemma {:induction false} AndMask(x: nat, k: nat)
    ensures And(x, Pow2(k) - 1) == x % Pow2(k)
  {
    if k > 0 && x > 0 {
      AndMask(x / 2, k - 1);
      assert (Pow2(k) - 1) / 2 == Pow2(k - 1) - 1;
      DivModTwo(x, Pow2(k - 1));
    }
  }

  /** x & (2^hi - 2^lo) keeps the bits from lo up to hi. */
  lemma {:induction false} AndRange(x: nat, lo: nat, hi: nat)
    requires lo <= hi
    ensures Pow2(lo) <= Pow2(hi) && And(x, Pow2(hi) - Pow2(lo)) == x % Pow2(hi) / Pow2(lo) * Pow2(lo)
  {
    Pow2Monotone(lo, hi);
    if lo == 0 {
      AndMask(x, hi);
    } else {
      var m, n := Pow2(hi - 1), Pow2(lo - 1);
      AndRange(x / 2, lo - 1, hi - 1);
      assert (2 * m - 2 * n) / 2 == m - n && (2 * m - 2 * n) % 2 == 0;
      EvenMask(x, m - n);
      DivModTwo(x, m);
      KeptBits(x / 2 % m, x % 2, n);
    }
  }

  /** A mask with its low bit clear. */
  lemma EvenMask(x: nat, m: nat)
    ensures And(x, 2 * m) == 2 * And(x / 2, m)
  {
    assert 2 * m / 2 == m && 2 * m % 2 == 0;
  }

  lemma KeptBits(a: nat, b: nat, n: nat)
    requires b < 2 && n > 0
    ensures (2 * a + b) / (2 * n) * (2 * n) == 2 * (a / n * n)
  {
    QuotientRemainder(a, n);
    assert 2 * (n * (a / n)) == (2 * n) * (a / n);
    ModUnique(2 * a + b, 2 * n, a / n, 2 * (a % n) + b);
  }

  lemma DivModTwo(x: nat, n: nat)
    requires n > 0
    ensures x % (2 * n) == 2 * ((x / 2) % n) + x % 2
  {
    var q, r := (x / 2) / n, (x / 2) % n;
    assert x / 2 == n * q + r;
    assert x == (2 * n) * q + (2 * r + x % 2);
    ModUnique(x, 2 * n, q, 2 * r + x % 2);
  }

  /** The quotient and remainder of a division are the only ones in range. */
  lemma ModUnique(x: int, n: int, q: int, r: int)
    requires 0 <= r < n && x == n * q + r
    ensures x / n == q && x % n == r
  {
    var d := x / n - q;
    assert n * d == n * (x / n) - n * q;
    assert x == n * (x / n) + x % n;
    assert -n < n * d < n;
    assert d >= 1 ==> n * d >= n;
    assert d <= -1 ==> n * d <= -n;
  }

  lemma Doubled(x: int, n: int)
    ensures x * (2 * n) == 2 * (x * n)
  {
  }

  /** Bits that do not overlap are or-ed by adding. */
  lemma {:induction false} OrDisjoint(x: nat, y: nat, k: nat)
    requires x < Pow2(k)
    ensures Or(x, y * Pow2(k)) == x + y * Pow2(k)
  {
    if k > 0 && x > 0 && y > 0 {
      OrDisjoint(x / 2, y, k - 1);
      Doubled(y, Pow2(k - 1));
      OrDoubled(x, y * Pow2(k - 1));
    }
  }

  lemma OrDoubled(x: nat, u: nat)
    requires Or(x / 2, u) == x / 2 + u
    ensures Or(x, 2 * u) == x + 2 * u
  {
    if x != 0 && u != 0 {
      assert (2 * u) / 2 == u && (2 * u) % 2 == 0;
      assert Or(x, 2 * u) == 2 * Or(x / 2, u) + x % 2;
    }
  }

  lemma {:induction false} XorStep(a: nat, b: nat)
    ensures Xor(a, b) == 2 * Xor(a / 2, b / 2) + (if a % 2 != b % 2 then 1 else 0)
  {
    if a == 0 || b == 0 { }
  }

  lemma {:induction false} XorCommutes(a: nat, b: nat)
    ensures Xor(a, b) == Xor(b, a)
    decreases a + b
  {
    if a != 0 && b != 0 { XorCommutes(a / 2, b / 2); }
  }

  /** Exclusive-or with the same word twice gives the first word back. */
  lemma {:induction false} XorCancels(a: nat, b: nat)
    ensures Xor(Xor(a, b), b) == a
    decreases a + b
  {
    if a == 0 && b != 0 { XorSelf(b); }
    else if a != 0 && b != 0 {
      XorCancels(a / 2, b / 2);
      XorStep(Xor(a, b), b);
    }
  }

  lemma {:induction false} XorSelf(a: nat)
    ensures Xor(a, a) == 0
  {
    if a != 0 { XorSelf(a / 2); }
  }

  lemma {:induction false} XorBound(a: nat, b: nat, k: nat)
    requires a < Pow2(k) && b < Pow2(k)
    ensures Xor(a, b) < Pow2(k)
  {
    if k > 0 && a != 0 && b != 0 { XorBound(a / 2, b / 2, k - 1); }
  }

  function Differ(a: nat, b: nat): nat
  {
    if a % 2 != b % 2 then 1 else 0
  }

  lemma XorHalf(a: nat, b: nat)
    ensures Xor(a, b) / 2 == Xor(a / 2, b / 2) && Xor(a, b) % 2 == Differ(a, b)
  {
    XorStep(a, b);
  }

  lemma SameNumber(x: nat, y: nat)
    requires x / 2 == y / 2 && x % 2 == y % 2
    ensures x == y
  {
  }

  lemma {:induction false} XorAssociates(a: nat, b: nat, c: nat)
    ensures Xor(Xor(a, b), c) == Xor(a, Xor(b, c))
    decreases a + b + c
  {
    if a + b + c > 0 {
      XorAssociates(a / 2, b / 2, c / 2);
      XorHalf(a, b);
      XorHalf(b, c);
      XorHalf(Xor(a, b), c);
      XorHalf(a, Xor(b, c));
      SameNumber(Xor(Xor(a, b), c), Xor(a, Xor(b, c)));
    }
  }

  /** Exclusive-or takes the parts of words apart. */
  lemma {:induction false} XorParts(a: nat, b: nat, c: nat, d: nat, k: nat)
    requires a < Pow2(k) && b < Pow2(k)
    ensures Xor(a + Pow2(k) * c, b + Pow2(k) * d) == Xor(a, b) + Pow2(k) * Xor(c, d)
  {
    if k > 0 {
      XorParts(a / 2, b / 2, c, d, k - 1);
      XorPartsStep(a, b, c, d, Pow2(k - 1), Xor(c, d));
    }
  }

  lemma XorPartsStep(a: nat, b: nat, c: nat, d: nat, n: nat, high: nat)
    requires Xor(a / 2 + n * c, b / 2 + n * d) == Xor(a / 2, b / 2) + n * high
    ensures Xor(a + (2 * n) * c, b + (2 * n) * d) == Xor(a, b) + (2 * n) * high
  {
    HalfOf(a, n, c);
    HalfOf(b, n, d);
    HalfOf(Xor(a, b), n, high);
    XorHalf(a, b);
    XorHalf(a + (2 * n) * c, b + (2 * n) * d);
    SameNumber(Xor(a + (2 * n) * c, b + (2 * n) * d), Xor(a, b) + (2 * n) * high);
  }

  lemma HalfOf(a: nat, n: nat, c: nat)
    ensures (a + (2 * n) * c) / 2 == a / 2 + n * c && (a + (2 * n) * c) % 2 == a % 2
    ensures a + (2 * n) * c == 2 * (a / 2 + n * c) + a % 2
  {
    assert (2 * n) * c == 2 * (n * c);
  }

  // ---- shifting left and or-ing -------------------------------------------

  /** `lo | (hi << k)` in a word of w bits, where lo fills the k bits below. */
  function ShlOr(lo: nat, hi: nat, k: nat, w: nat): (r: nat)
    requires lo < Pow2(k) && k <= w
    ensures r == lo + (hi % Pow2(w - k)) * Pow2(k)
    ensures r < Pow2(w)
  {
    ShiftDrops(hi, k, w);
    OrDisjoint(lo, hi % Pow2(w - k), k);
    Pow2Add(w - k, k);
    LowAndHigh(lo, hi % Pow2(w - k), Pow2(k), Pow2(w - k));
    Or(lo, (hi * Pow2(k)) % Pow2(w))
  }

  lemma LowAndHigh(lo: nat, hi: nat, m: nat, n: nat)
    requires lo < m && hi < n
    ensures lo + hi * m < n * m
  {
    ProductBound(hi, m, n - 1, m);
    assert (n - 1) * m == n * m - m;
  }

  /** Shifting left by k in w bits keeps the low w - k bits. */
  lemma ShiftDrops(x: nat, k: nat, w: nat)
    requires k <= w
    ensures (x * Pow2(k)) % Pow2(w) == (x % Pow2(w - k)) * Pow2(k)
  {
    Pow2Add(w - k, k);
    ScaledMod(x, Pow2(w - k), Pow2(k), Pow2(w));
  }

  lemma ScaledMod(x: nat, m: nat, n: nat, p: nat)
    requires p == m * n && m > 0 && n > 0
    ensures (x * n) % p == (x % m) * n
  {
    var q, r := x / m, x % m;
    QuotientRemainder(x, m);
    ScaledRemainder(x, q, r, m, n, p);
  }

  lemma QuotientRemainder(x: int, m: int)
    requires m > 0
    ensures x == m * (x / m) + x % m && 0 <= x % m < m
  {
  }

  lemma ScaledRemainder(x: nat, q: nat, r: nat, m: nat, n: nat, p: nat)
    requires r < m && n > 0 && x == m * q + r && p == m * n
    ensures (x * n) % p == r * n
  {
    assert x * n == (m * q) * n + r * n;
    assert (m * q) * n == p * q;
    ProductBound(r, n, m - 1, n);
    assert (m - 1) * n == p - n;
    ModUnique(x * n, p, q, r * n);
  }

  lemma Pow2Table()
    ensures Pow2(6) == 64 && Pow2(8) == 256 && Pow2(12) == 0x1000 && Pow2(13) == 0x2000
    ensures Pow2(14) == 0x4000 && Pow2(18) == 0x4_0000 && Pow2(20) == 0x10_0000 && Pow2(24) == 0x100_0000
    ensures Pow2(25) == 0x200_0000 && Pow2(38) == 0x40_0000_0000 && Pow2(39) == 0x80_0000_0000
  {
    assert Pow2(6) == 64;
    Pow2Known(6, 64, 6, 64);
    Pow2Known(12, 0x1000, 1, 2);
    Pow2Known(12, 0x1000, 2, 4);
    Pow2Known(12, 0x1000, 6, 64);
    Pow2Known(14, 0x4000, 6, 64);
    Pow2Known(18, 0x4_0000, 6, 64);
    Pow2Known(24, 0x100_0000, 1, 2);
    Pow2Known(25, 0x200_0000, 13, 0x2000);
    Pow2Known(38, 0x40_0000_0000, 1, 2);
  }

  // ---- 64-bit words ---------------------------------------------------------

  const TWO64: int := 0x1_0000_0000_0000_0000

  lemma Pow2Of64()
    ensures Pow2(64) == TWO64 && Pow2(32) == 0x1_0000_0000 && Pow2(8) == 0x100
    ensures Pow2(51) == 0x8_0000_0000_0000 && Pow2(26) == 0x400_0000
  {
    assert Pow2(8) == 0x100;
    Pow2Known(8, 0x100, 8, 0x100);
    Pow2Known(16, 0x1_0000, 8, 0x100);
    Pow2Known(24, 0x100_0000, 2, 4);
    Pow2Known(24, 0x100_0000, 8, 0x100);
    Pow2Known(32, 0x1_0000_0000, 32, 0x1_0000_0000);
    Pow2Known(26, 0x400_0000, 24, 0x100_0000);
    Pow2Known(50, 0x4_0000_0000_0000, 1, 2);
  }

  lemma Pow2Known(a: nat, va: nat, b: nat, vb: nat)
    requires Pow2(a) == va && Pow2(b) == vb
    ensures Pow2(a + b) == va * vb
  {
    Pow2Add(a, b);
  }

  /** m = 2^k and n = 2^(w-k) for some k. */
  ghost predicate IsSplit(m: nat, n: nat, w: nat)
  {
    exists k: nat :: k <= w && m == Pow2(k) && n == Pow2(w - k)
  }

  /** `lo | (hi << k)` in a 64-bit word, for m = 2^k and n = 2^(64-k). */
  function Joined(lo: nat, hi: nat, m: nat, ghost n: nat): (r: u64)
    requires IsSplit(m, n, 64) && lo < m
    ensures r as int == lo + hi % n * m
  {
    JoinedBits(lo, hi, m, n);
    Or(lo, (hi * m) % TWO64) as u64
  }

  lemma JoinedBits(lo: nat, hi: nat, m: nat, n: nat)
    requires IsSplit(m, n, 64) && lo < m
    ensures Or(lo, (hi * m) % TWO64) == lo + hi % n * m < TWO64
  {
    var k: nat :| k <= 64 && m == Pow2(k) && n == Pow2(64 - k);
    Pow2Of64();
    var r := ShlOr(lo, hi, k, 64);
  }

  lemma Splits()
    ensures IsSplit(0x8_0000_0000_0000, 0x2000, 64) && IsSplit(0x40_0000_0000, 0x400_0000, 64)
    ensures IsSplit(0x200_0000, 0x80_0000_0000, 64) && IsSplit(0x1000, 0x10_0000_0000_0000, 64)
    ensures IsSplit(0x2000, 0x8_0000_0000_0000, 64) && IsSplit(0x400_0000, 0x40_0000_0000, 64)
    ensures IsSplit(0x80_0000_0000, 0x200_0000, 64)
  {
    Pow2Table();
    Pow2Of64();
    Pow2Known(26, 0x400_0000, 26, 0x400_0000);
    assert Pow2(64 - 51) == 0x2000 && Pow2(64 - 38) == 0x400_0000 && Pow2(64 - 25) == 0x80_0000_0000;
    assert Pow2(64 - 12) == 0x10_0000_0000_0000 && Pow2(64 - 13) == 0x8_0000_0000_0000;
    assert Pow2(64 - 26) == 0x40_0000_0000 && Pow2(64 - 39) == 0x200_0000;
  }

  /** `lo | (hi << k)` in a 32-bit word, for m = 2^k and n = 2^(32-k). */
  function Joined32(lo: nat, hi: nat, m: nat, ghost n: nat): (r: u32)
    requires IsSplit(m, n, 32) && lo < m
    ensures r as int == lo + hi % n * m
  {
    JoinedBits32(lo, hi, m, n);
    Or(lo, (hi * m) % 0x1_0000_0000) as u32
  }

  lemma JoinedBits32(lo: nat, hi: nat, m: nat, n: nat)
    requires IsSplit(m, n, 32) && lo < m
    ensures Or(lo, (hi * m) % 0x1_0000_0000) == lo + hi % n * m < 0x1_0000_0000
  {
    var k: nat :| k <= 32 && m == Pow2(k) && n == Pow2(32 - k);
    Pow2Of64();
    var r := ShlOr(lo, hi, k, 32);
  }

  lemma Splits32()
    ensures IsSplit(0x400_0000, 0x40, 32) && IsSplit(0x10_0000, 0x1000, 32)
    ensures IsSplit(0x4000, 0x4_0000, 32) && IsSplit(0x100, 0x100_0000, 32)
  {
    Pow2Table();
    Pow2Of64();
    assert Pow2(32 - 26) == 0x40 && Pow2(32 - 20) == 0x1000 && Pow2(32 - 14) == 0x4_0000 && Pow2(32 - 8) == 0x100_0000;
  }

  /** `(a & !mask) | (b & mask)` in 64 bits. */
  function Choose64(a: u64, b: u64, mask: u64): (r: u64)
    requires mask == 0 || mask == 0xffff_ffff_ffff_ffff
    ensures r == if mask == 0 then a else b
  {
    Pow2Of64();
    AllOnesKeep(0xffff_ffff_ffff_ffff, a as nat, 64);
    AllOnesKeep(0xffff_ffff_ffff_ffff, b as nat, 64);
    Or(And((0xffff_ffff_ffff_ffff - mask) as nat, a as nat), And(mask as nat, b as nat)) as u64
  }

  // ---- masked choice of 32-bit words ------------------------------------------

  lemma AllOnesKeep(m: nat, t: nat, k: nat)
    requires m + 1 == Pow2(k) && t <= m
    ensures And(m, t) == t
  {
    AndCommutes(m, t);
    AndMask(t, k);
  }

  /** `(h & !mask) | (g & mask)`. */
  function Choose32(h: u32, g: u32, mask: u32): (r: u32)
    requires mask == 0 || mask == 0xffff_ffff
    ensures r == if mask == 0 then h else g
  {
    Pow2Of64();
    AllOnesKeep(0xffff_ffff, h as nat, 32);
    AllOnesKeep(0xffff_ffff, g as nat, 32);
    Or(And((0xffff_ffff - mask) as nat, h as nat), And(mask as nat, g as nat)) as u32
  }

  function Xor64(a: u64, b: u64): (r: u64)
    ensures r as int == Xor(a as nat, b as nat)
  {
    Pow2Of64();
    XorBound(a as nat, b as nat, 64);
    Xor(a as nat, b as nat) as u64
  }

  lemma {:induction false} AndBound(a: nat, b: nat)
    ensures And(a, b) <= a && And(a, b) <= b
  {
    if a != 0 && b != 0 { AndBound(a / 2, b / 2); }
  }

  function And64(a: u64, b: u64): (r: u64)
    ensures r as int == And(a as nat, b as nat)
  {
    AndBound(a as nat, b as nat);
    And(a as nat, b as nat) as u64
  }

  /** All ones when choice is 1, zero when it is 0: `0u64.wrapping_sub(choice)`. */
  function Mask64(choice: u64): u64
  {
    ((TWO64 - choice as int) % TWO64) as u64
  }

  /** The mask of a choice keeps every bit or none. */
  lemma MaskKeeps(choice: u64, t: u64)
    requires choice <= 1
    ensures And64(Mask64(choice), t) == (if choice == 1 then t else 0)
  {
    if choice == 1 {
      Pow2Of64();
      AllOnesKeep(Mask64(choice) as nat, t as nat, 64);
    }
  }

  /** Exclusive-or of a word with the difference of two is the other one. */
  lemma XorDifference(a: nat, b: nat)
    ensures Xor(a, Xor(a, b)) == b && Xor(b, Xor(a, b)) == a
  {
    XorCommutes(a, b);
    XorCommutes(a, Xor(a, b));
    XorCommutes(b, Xor(a, b));
    XorCancels(b, a);
    XorCancels(a, b);
  }

  /** Branch-free selection: a ^ (mask & (a ^ b)) is b under the full mask and a
      under the empty one. */
  lemma MaskedChoice(a: u64, b: u64, choice: u64)
    requires choice <= 1
    ensures Xor64(a, And64(Mask64(choice), Xor64(a, b))) == (if choice == 1 then b else a)
    ensures Xor64(b, And64(Mask64(choice), Xor64(a, b))) == (if choice == 1 then a else b)
  {
    MaskKeeps(choice, Xor64(a, b));
    if choice == 1 { XorDifference(a as nat, b as nat); }
  }

  lemma {:induction false} AndCommutes(a: nat, b: nat)
    ensures And(a, b) == And(b, a)
  {
    if a != 0 && b != 0 { AndCommutes(a / 2, b / 2); }
  }
}
