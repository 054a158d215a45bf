/** The field GF(2^8) of AES (section 4 of FIPS 197) and the S-box computed in it
    (aes.rs). */
module Galois {
  import opened Words
  import opened Bytes
  import opened Linear
  import opened Monoid

  /** Bytes under exclusive-or. */
  function Sums(): Group<u8>
  {
    Group(0, XorByte)
  }

  lemma SumsLaws()
    ensures GroupLaws(Sums())
  {
    forall x: u8, y: u8, z: u8 ensures LawAt(Sums(), x, y, z) { XorByteLaws(x, y, z); }
  }

  // ---- shifting by one ------------------------------------------------------------------

  function Top(a: u8, c: u8): u8
  {
    if a < 0x80 then 0 else c
  }

  /** The byte shifted left by one, c xor-ed in for the bit that falls off. */
  function Shifted(a: u8, c: u8): u8
  {
    XorByte(Low(a), Top(a, c))
  }

  /** The byte shifted left by one, the bit that falls off lost. */
  function Low(a: u8): u8
  {
    if a < 0x80 then 2 * a else 2 * (a - 0x80)
  }

  lemma HighBits(a: u8, b: u8)
    ensures XorByte(a, b) as nat % 128 == Xor(a as nat % 128, b as nat % 128)
    ensures XorByte(a, b) as nat / 128 == Xor(a as nat / 128, b as nat / 128)
  {
    var l, m := a as nat % 128, b as nat % 128;
    assert Pow2(7) == 128 by { Pow2Known(6, 64, 1, 2); }
    XorParts(l, m, a as nat / 128, b as nat / 128, 7);
    XorBound(l, m, 7);
    ModUnique(XorByte(a, b) as nat, 128, Xor(a as nat / 128, b as nat / 128), Xor(l, m));
  }

  lemma LowSum(a: u8, b: u8)
    ensures Low(XorByte(a, b)) == XorByte(Low(a), Low(b))
  {
    HighBits(a, b);
    assert Low(XorByte(a, b)) as nat == 2 * (XorByte(a, b) as nat % 128);
    XorParts(0, 0, a as nat % 128, b as nat % 128, 1);
    assert Xor(2 * (a as nat % 128), 2 * (b as nat % 128)) == 2 * Xor(a as nat % 128, b as nat % 128);
  }

  lemma ShiftedSum(a: u8, b: u8, c: u8)
    ensures Shifted(XorByte(a, b), c) == XorByte(Shifted(a, c), Shifted(b, c))
  {
    SumsLaws();
    LowSum(a, b);
    HighBits(a, b);
    TopSum(a, b, c, a as nat / 128, b as nat / 128);
    Swap4(Sums(), Low(a), Top(a, c), Low(b), Top(b, c));
  }

  lemma TopSum(a: u8, b: u8, c: u8, h: nat, k: nat)
    requires h == a as nat / 128 && k == b as nat / 128
    requires XorByte(a, b) as nat / 128 == Xor(h, k)
    ensures Top(XorByte(a, b), c) == XorByte(Top(a, c), Top(b, c))
  {
    XorByteLaws(c, 0, 0);
    XorByteLaws(0, c, 0);
    XorByteLaws(0, 0, 0);
  }

  // ---- the product -----------------------------------------------------------------------

  /** Times x, modulo x^8 + x^4 + x^3 + x + 1. */
  function Double(a: u8): u8
  {
    Shifted(a, 0x1b)
  }

  lemma DoubleAdds()
    ensures Additive(Sums(), Double)
  {
    forall a, b ensures AddsAt(Sums(), Double, a, b) { ShiftedSum(a, b, 0x1b); }
  }

  /** a, a x, a x^2 and so on. */
  function Powers(a: u8, n: nat): (r: seq<u8>)
    ensures |r| == n
    decreases n
  {
    if n == 0 then [] else [a] + Powers(Double(a), n - 1)
  }

  /** The product of field elements: the sum of a x^i over the bits i set in b. */
  function Times(a: u8, b: u8): u8
  {
    Pick(Sums(), Powers(a, 8), NumberBits(b as nat, 8))
  }

  lemma {:induction false} PowersStep(a: u8, n: nat, i: nat)
    requires i + 1 < n
    ensures Powers(a, n)[i + 1] == Double(Powers(a, n)[i])
    ensures Powers(Double(a), n)[i] == Double(Powers(a, n)[i])
    decreases n
  {
    if i > 0 { PowersStep(Double(a), n - 1, i - 1); }
    PowersShift(a, n, i);
  }

  lemma {:induction false} PowersShift(a: u8, n: nat, i: nat)
    requires i < n
    ensures Powers(Double(a), n)[i] == Double(Powers(a, n)[i])
    decreases n
  {
    if i > 0 { PowersShift(Double(a), n - 1, i - 1); }
  }

  lemma {:induction false} PowersSum(a: u8, b: u8, n: nat, i: nat)
    requires i < n
    ensures Powers(XorByte(a, b), n)[i] == XorByte(Powers(a, n)[i], Powers(b, n)[i])
    decreases n
  {
    DoubleAdds();
    assert AddsAt(Sums(), Double, a, b);
    if i > 0 { PowersSum(Double(a), Double(b), n - 1, i - 1); }
  }

  lemma {:induction false} BitsSum(b: nat, c: nat, n: nat, i: nat)
    requires i < n
    ensures NumberBits(Xor(b, c), n)[i] == (NumberBits(b, n)[i] != NumberBits(c, n)[i])
  {
    XorHalf(b, c);
    if i > 0 { BitsSum(b / 2, c / 2, n - 1, i - 1); }
  }

  function TimesBy(c: u8): u8 -> u8
  {
    a => Times(a, c)
  }

  function TimesOf(a: u8): u8 -> u8
  {
    b => Times(a, b)
  }

  lemma TimesAddsLeft(c: u8)
    ensures Additive(Sums(), TimesBy(c))
  {
    SumsLaws();
    forall a, b ensures AddsAt(Sums(), TimesBy(c), a, b) {
      forall i: nat | i < 8 ensures Powers(XorByte(a, b), 8)[i] == XorByte(Powers(a, 8)[i], Powers(b, 8)[i]) {
        PowersSum(a, b, 8, i);
      }
      PickAdd(Sums(), Powers(a, 8), Powers(b, 8), Powers(XorByte(a, b), 8), NumberBits(c as nat, 8));
    }
  }

  lemma TimesAddsRight(a: u8)
    ensures Additive(Sums(), TimesOf(a))
  {
    SumsLaws();
    forall b, c ensures AddsAt(Sums(), TimesOf(a), b, c) {
      var x, y, z := NumberBits(b as nat, 8), NumberBits(c as nat, 8), NumberBits(XorByte(b, c) as nat, 8);
      forall i: nat | i < 8 ensures z[i] == (x[i] != y[i]) { BitsSum(b as nat, c as nat, 8, i); }
      PickXor(Sums(), Powers(a, 8), x, y, z);
    }
  }

  // ---- maps that keep sums are known by what they do to the powers of x -------------------

  /** The byte with bit i alone. */
  function Basis(i: nat): u8
    requires i < 8
  {
    Pow2Monotone(i, 7);
    assert Pow2(7) == 128 by { Pow2Known(6, 64, 1, 2); }
    Pow2(i) as u8
  }

  function BasisFrom(k: nat): (r: seq<u8>)
    requires k <= 8
    ensures |r| == 8 - k
  {
    seq(8 - k, i requires 0 <= i < 8 - k => Basis(k + i))
  }

  /** Every byte is the sum of its bits. */
  lemma {:induction false} Rebuilt(y: nat, k: nat)
    requires k <= 8 && y < Pow2(8 - k)
    ensures Pick(Sums(), BasisFrom(k), NumberBits(y, 8 - k)) as nat == Pow2(k) * y
    decreases 8 - k
  {
    if k < 8 {
      Rebuilt(y / 2, k + 1);
      assert BasisFrom(k)[1..] == BasisFrom(k + 1);
      assert NumberBits(y, 8 - k)[1..] == NumberBits(y / 2, 8 - (k + 1));
      RebuiltStep(k, y);
    }
  }

  lemma RebuiltStep(k: nat, y: nat)
    ensures Xor(if y % 2 == 1 then Pow2(k) else 0, Pow2(k + 1) * (y / 2)) == Pow2(k) * y
  {
    XorParts(0, 0, y % 2, 2 * (y / 2), k);
    XorParts(y % 2, 0, 0, y / 2, 1);
    RebuiltArithmetic(Pow2(k), y);
  }

  lemma RebuiltArithmetic(n: nat, y: nat)
    ensures n * (y % 2 + 2 * (y / 2)) == n * y && (2 * n) * (y / 2) == n * (2 * (y / 2))
    ensures n * (y % 2) == if y % 2 == 1 then n else 0
  {
    assert y % 2 + 2 * (y / 2) == y;
  }

  lemma SameOnBasis(f: u8 -> u8, h: u8 -> u8, a: u8)
    requires Additive(Sums(), f) && Additive(Sums(), h)
    requires forall i: nat :: i < 8 ==> f(Basis(i)) == h(Basis(i))
    ensures f(a) == h(a)
  {
    SumsLaws();
    ByBits(a);
    SameOnSums(Sums(), f, h, BasisFrom(0), NumberBits(a as nat, 8));
  }

  /** A byte is the sum of its bits. */
  lemma ByBits(a: u8)
    ensures Pick(Sums(), BasisFrom(0), NumberBits(a as nat, 8)) == a
  {
    Pow2Of64();
    Rebuilt(a as nat, 0);
  }

  lemma BasisStep(i: nat)
    requires i < 7
    ensures Double(Basis(i)) == Basis(i + 1)
    ensures Basis(0) == 1 && Double(Basis(7)) == 0x1b && Basis(1) == 2
  {
    Pow2Monotone(i, 6);
    assert Pow2(6) == 64;
    assert Pow2(7) == 128;
    assert Pow2(1) == 2;
    XorByteLaws(0, 2 * Basis(i), 0);
    XorByteLaws(0x1b, 0, 0);
  }

  // ---- the laws of the product -------------------------------------------------------------

  lemma {:induction false} PickNone<T(!new)>(g: Group<T>, v: seq<T>, bits: seq<bool>)
    requires GroupLaws(g) && |v| == |bits| && forall j :: 0 <= j < |v| ==> !bits[j]
    ensures Pick(g, v, bits) == g.zero
  {
    ZeroLaws(g, g.zero);
    if v != [] { PickNone(g, v[1..], bits[1..]); }
  }

  lemma {:induction false} PickOne<T(!new)>(g: Group<T>, v: seq<T>, bits: seq<bool>, i: nat)
    requires GroupLaws(g) && i < |v| == |bits| && bits[i] && forall j :: 0 <= j < |v| && j != i ==> !bits[j]
    ensures Pick(g, v, bits) == v[i]
  {
    ZeroLaws(g, v[i]);
    if i == 0 { PickNone(g, v[1..], bits[1..]); } else { PickOne(g, v[1..], bits[1..], i - 1); }
  }

  lemma {:induction false} BasisBits(i: nat, n: nat, j: nat)
    requires j < n
    ensures NumberBits(Pow2(i), n)[j] <==> i == j
  {
    if i == 0 {
      if j > 0 { ZeroBits(n - 1, j - 1); }
    } else {
      assert Pow2(i) / 2 == Pow2(i - 1) && Pow2(i) % 2 == 0;
      if j > 0 { BasisBits(i - 1, n - 1, j - 1); }
    }
  }

  lemma {:induction false} ZeroBits(n: nat, j: nat)
    requires j < n
    ensures !NumberBits(0, n)[j]
  {
    if j > 0 { ZeroBits(n - 1, j - 1); }
  }

  lemma TimesBasis(a: u8, i: nat)
    requires i < 8
    ensures Times(a, Basis(i)) == Powers(a, 8)[i]
  {
    SumsLaws();
    var bits := NumberBits(Basis(i) as nat, 8);
    forall j: nat | j < 8 ensures bits[j] == (i == j) { BasisBits(i, 8, j); }
    PickOne(Sums(), Powers(a, 8), bits, i);
  }

  lemma DoubleTimes(a: u8, b: u8)
    ensures Times(Double(a), b) == Double(Times(a, b))
  {
    SumsLaws();
    DoubleAdds();
    forall i: nat | i < 8 ensures Powers(Double(a), 8)[i] == Double(Powers(a, 8)[i]) { PowersShift(a, 8, i); }
    PickMap(Sums(), Double, Powers(a, 8), Powers(Double(a), 8), NumberBits(b as nat, 8));
  }

  lemma TimesOne(a: u8)
    ensures Times(a, 1) == a && Times(1, a) == a
  {
    TimesBasis(a, 0);
    BasisStep(0);
    TimesAddsRight(1);
    SameAdds();
    forall i: nat | i < 8 ensures TimesOf(1)(Basis(i)) == Same(Basis(i)) { OnePowers(i); }
    SameOnBasis(TimesOf(1), Same, a);
  }

  function Same(a: u8): u8
  {
    a
  }

  lemma SameAdds()
    ensures Additive(Sums(), Same)
  {
    forall x, y ensures AddsAt(Sums(), Same, x, y) {}
  }

  lemma {:induction false} OnePowers(i: nat)
    requires i < 8
    ensures Times(1, Basis(i)) == Basis(i)
  {
    TimesBasis(1, i);
    if i > 0 {
      OnePowers(i - 1);
      TimesBasis(1, i - 1);
      PowersStep(1, 8, i - 1);
      BasisStep(i - 1);
    } else {
      BasisStep(0);
    }
  }

  lemma Commutative(a: u8, b: u8)
    ensures Times(a, b) == Times(b, a)
  {
    TimesAddsLeft(b);
    TimesAddsRight(b);
    forall i: nat | i < 8 ensures TimesBy(b)(Basis(i)) == TimesOf(b)(Basis(i)) { CommutesOnBasis(b, i); }
    SameOnBasis(TimesBy(b), TimesOf(b), a);
  }

  lemma {:induction false} CommutesOnBasis(b: u8, i: nat)
    requires i < 8
    ensures Times(Basis(i), b) == Times(b, Basis(i))
  {
    if i == 0 {
      BasisStep(0);
      TimesOne(b);
    } else {
      CommutesOnBasis(b, i - 1);
      BasisStep(i - 1);
      DoubleTimes(Basis(i - 1), b);
      TimesBasis(b, i - 1);
      TimesBasis(b, i);
      PowersStep(b, 8, i - 1);
    }
  }

  lemma TimesDouble(a: u8, b: u8)
    ensures Times(a, Double(b)) == Double(Times(a, b))
  {
    Commutative(a, Double(b));
    Commutative(a, b);
    DoubleTimes(b, a);
  }

  function Nested(a: u8, b: u8): u8 -> u8
  {
    c => Times(a, Times(b, c))
  }

  lemma NestedAdds(a: u8, b: u8)
    ensures Additive(Sums(), Nested(a, b))
  {
    TimesAddsRight(a);
    TimesAddsRight(b);
    forall x, y ensures AddsAt(Sums(), Nested(a, b), x, y) {
      assert AddsAt(Sums(), TimesOf(b), x, y);
      assert AddsAt(Sums(), TimesOf(a), Times(b, x), Times(b, y));
    }
  }

  lemma Associative(a: u8, b: u8, c: u8)
    ensures Times(Times(a, b), c) == Times(a, Times(b, c))
  {
    TimesAddsRight(Times(a, b));
    NestedAdds(a, b);
    forall i: nat | i < 8 ensures TimesOf(Times(a, b))(Basis(i)) == Nested(a, b)(Basis(i)) {
      AssociatesOnBasis(a, b, i);
    }
    SameOnBasis(TimesOf(Times(a, b)), Nested(a, b), c);
  }

  lemma {:induction false} AssociatesOnBasis(a: u8, b: u8, i: nat)
    requires i < 8
    ensures Times(Times(a, b), Basis(i)) == Times(a, Times(b, Basis(i)))
  {
    TimesBasis(Times(a, b), i);
    TimesBasis(b, i);
    if i == 0 {
    } else {
      AssociatesOnBasis(a, b, i - 1);
      TimesBasis(Times(a, b), i - 1);
      TimesBasis(b, i - 1);
      PowersStep(Times(a, b), 8, i - 1);
      PowersStep(b, 8, i - 1);
      TimesDouble(a, Powers(b, 8)[i - 1]);
    }
  }

  lemma Distributes(a: u8, b: u8, c: u8)
    ensures Times(a, XorByte(b, c)) == XorByte(Times(a, b), Times(a, c))
    ensures Times(XorByte(b, c), a) == XorByte(Times(b, a), Times(c, a))
  {
    TimesAddsRight(a);
    TimesAddsLeft(a);
    assert AddsAt(Sums(), TimesOf(a), b, c) && AddsAt(Sums(), TimesBy(a), b, c);
  }

  // ---- the loop ------------------------------------------------------------------------------

  /** All ones when the low bit is set: `0u8.wrapping_sub(b & 1)`. */
  function Mask(b: u8): u8
  {
    ((256 - b as nat % 2) % 256) as u8
  }

  lemma MaskKeeps(a: u8, b: u8)
    ensures And(a as nat, Mask(b) as nat) == if b % 2 == 1 then a as nat else 0
  {
    var byte := 8;
    if b % 2 == 1 {
      AndMask(a as nat, byte);
      assert Pow2(byte) == 256 by { Pow2Of64(); }
      assert Mask(b) == 255;
    } else {
      assert Mask(b) == 0;
    }
  }

  function Masked(a: u8, b: u8): (r: u8)
    ensures r == if b % 2 == 1 then a else 0
  {
    MaskKeeps(a, b);
    And(a as nat, Mask(b) as nat) as u8
  }

  /** `(a << 1) ^ (0x1b & mask of the high bit)`. */
  lemma ShiftedIs(a: u8)
    ensures XorByte(((2 * a as nat) % 256) as u8, Masked(0x1b, a / 0x80)) == Double(a)
  {
    assert ((2 * a as nat) % 256) as u8 == Low(a);
    assert Masked(0x1b, a / 0x80) == Top(a, 0x1b);
  }

  /** What is left of the sum after n steps. */
  function Rest(a: u8, b: u8, n: nat): u8
  {
    Pick(Sums(), Powers(a, n), NumberBits(b as nat, n))
  }

  lemma RestStep(product: u8, a: u8, b: u8, n: nat)
    requires n > 0
    ensures XorByte(product, Rest(a, b, n)) == XorByte(XorByte(product, Masked(a, b)), Rest(Double(a), b / 2, n - 1))
  {
    assert Powers(a, n)[1..] == Powers(Double(a), n - 1);
    assert NumberBits(b as nat, n)[1..] == NumberBits(b as nat / 2, n - 1);
    XorByteLaws(product, Masked(a, b), Rest(Double(a), b / 2, n - 1));
  }

  /** The same eight steps whatever the factors. */
  method Multiply(a0: u8, b0: u8) returns (product: u8)
    ensures product == Times(a0, b0)
  {
    var a, b := a0, b0;
    product := 0;
    XorByteLaws(0, Times(a0, b0), 0);
    XorByteLaws(Times(a0, b0), 0, 0);
    for i := 0 to 8
      invariant XorByte(product, Rest(a, b, 8 - i)) == Times(a0, b0)
    {
      RestStep(product, a, b, 8 - i);
      ShiftedIs(a);
      product := XorByte(product, Masked(a, b));
      a := XorByte(((2 * a as nat) % 256) as u8, Masked(0x1b, a / 0x80));
      b := b / 2;
    }
    XorByteLaws(product, 0, 0);
    XorByteLaws(0, product, 0);
  }

  // ---- powers and inverses -------------------------------------------------------------------

  function Products(): Op<u8>
  {
    Op(1, Times)
  }

  lemma ProductLaws()
    ensures Laws(Products())
  {
    forall x: u8, y: u8, z: u8 ensures Associates(Products(), x, y, z) { Associative(x, y, z); }
    forall x: u8, y: u8 ensures UnitKeeps(Products(), x, y) { TimesOne(Times(x, y)); }
    TimesOne(1);
  }

  function Power(x: u8, n: nat): u8
  {
    Repeat(Products(), x, n)
  }

  function Square(x: u8): u8
  {
    Times(x, x)
  }

  lemma SquareLaws(a: u8, b: u8)
    ensures Square(XorByte(a, b)) == XorByte(Square(a), Square(b))
    ensures Square(Times(a, b)) == Times(Square(a), Square(b))
  {
    var s := XorByte(a, b);
    Distributes(s, a, b);
    Distributes(a, a, b);
    Distributes(b, a, b);
    Commutative(a, b);
    SumsLaws();
    SquareCancels(Square(a), Times(a, b), Square(b));
    Associative(a, b, Times(a, b));
    Associative(b, a, b);
    Associative(a, b, b);
    Associative(a, Times(a, b), b);
    Associative(a, a, Square(b));
  }

  lemma SquareCancels(x: u8, y: u8, z: u8)
    ensures XorByte(XorByte(x, y), XorByte(y, z)) == XorByte(x, z)
  {
    XorByteLaws(x, y, XorByte(y, z));
    XorByteLaws(y, y, z);
    XorByteLaws(z, 0, 0);
  }

  // ---- every element is its own 256th power ----------------------------------------------------

  lemma SquareKeeps()
    ensures forall x, y :: KeepsAt(Square, XorByte, x, y)
    ensures forall x, y :: KeepsAt(Square, Times, x, y)
  {
    forall x, y ensures KeepsAt(Square, XorByte, x, y) && KeepsAt(Square, Times, x, y) { SquareLaws(x, y); }
  }

  lemma {:induction false} SquaringRepeats<T(!new)>(m: Op<T>, x: T, n: nat)
    requires Laws(m) && m.apply(x, m.unit) == x
    ensures Iterate((y: T) => m.apply(y, y), x, n) == Repeat(m, x, Pow2(n))
  {
    if n == 0 {
      assert Repeat(m, x, 1) == m.apply(x, Repeat(m, x, 0));
    } else {
      SquaringRepeats(m, x, n - 1);
      RepeatAdd(m, x, Pow2(n - 1), Pow2(n - 1));
    }
  }

  /** The squares of the powers of x. */
  const SQUARES: seq<u8> := [0x01, 0x04, 0x10, 0x40, 0x1b, 0x6c, 0xab, 0x9a]

  lemma SquareBasisNext(i: nat)
    requires i < 7
    ensures Square(Basis(i + 1)) == Double(Double(Square(Basis(i))))
  {
    var b := Basis(i);
    BasisStep(i);
    DoubleTimes(b, Double(b));
    TimesDouble(b, b);
  }

  lemma DoubleLow(a: u8)
    requires a < 0x80
    ensures Double(a) == 2 * a
  {
    XorByteLaws(0, 2 * a, 0);
  }

  lemma HighDoubles()
    ensures Double(0x80) == 0x1b && Double(0xd8) == 0xab && Double(0xab) == 0x4d
  {
    XorByteLaws(0x00, 0x1b, 0);
    XorIs(0xb0, 0x1b, 0xab);
    XorIs(0x56, 0x1b, 0x4d);
  }

  lemma LowSquares()
    ensures Square(Basis(0)) == 0x01 && Square(Basis(1)) == 0x04 && Square(Basis(2)) == 0x10 && Square(Basis(3)) == 0x40
  {
    BasisStep(0);
    TimesOne(1);
    DoubleLow(0x01);
    DoubleLow(0x02);
    DoubleLow(0x04);
    DoubleLow(0x08);
    DoubleLow(0x10);
    DoubleLow(0x20);
    SquareBasisNext(0);
    SquareBasisNext(1);
    SquareBasisNext(2);
  }

  lemma MiddleSquares()
    ensures Square(Basis(4)) == 0x1b && Square(Basis(5)) == 0x6c
  {
    LowSquares();
    HighDoubles();
    DoubleLow(0x40);
    DoubleLow(0x1b);
    DoubleLow(0x36);
    SquareBasisNext(3);
    SquareBasisNext(4);
  }

  lemma FourTimes(v: u8)
    requires v < 0x40
    ensures Double(Double(v)) == 4 * v
  {
    DoubleLow(v);
    DoubleLow(2 * v);
  }

  /** Doubling an entry of the table twice gives the next one. */
  lemma TableNext(i: nat)
    requires i < 7
    ensures SQUARES[i + 1] == Double(Double(SQUARES[i]))
  {
    if i == 3 {
      HighDoubles();
      DoubleLow(0x40);
    } else if i == 5 {
      HighDoubles();
      DoubleLow(0x6c);
    } else if i == 6 {
      HighDoubles();
      DoubleLow(0x4d);
    } else {
      FourTimes(SQUARES[i]);
    }
  }

  lemma {:induction false} SquareAt(i: nat)
    requires i < 8
    ensures Square(Basis(i)) == SQUARES[i]
  {
    if i == 0 {
      BasisStep(0);
      TimesOne(1);
    } else {
      SquareAt(i - 1);
      SquareBasisNext(i - 1);
      TableNext(i - 1);
    }
  }

  lemma SquareIs(a: u8)
    ensures Square(a) == Pick(Sums(), SQUARES, NumberBits(a as nat, 8))
  {
    SumsLaws();
    ByBits(a);
    SquareKeeps();
    forall i: nat | i < 8 ensures Square(Basis(i)) == SQUARES[i] { SquareAt(i); }
    forall x, y ensures AddsAt(Sums(), Square, x, y) { assert KeepsAt(Square, XorByte, x, y); }
    PickMap(Sums(), Square, BasisFrom(0), SQUARES, NumberBits(a as nat, 8));
  }

  lemma Xors1b()
    ensures XorByte(0x40, 0x1b) == 0x5b
    ensures XorByte(0x04, 0x5b) == 0x5f
    ensures XorByte(0x01, 0x5f) == 0x5e
  {
    XorIs(0x40, 0x1b, 0x5b);
    XorIs(0x04, 0x5b, 0x5f);
    XorIs(0x01, 0x5f, 0x5e);
  }

  lemma Square1b()
    ensures Square(0x1b) == 0x5e
  {
    Xors1b();
    SumsLaws();
    SquareIs(0x1b);
    PickEight(Sums(), SQUARES, [true, true, false, true, true, false, false, false]);
  }

  lemma Xors5ea()
    ensures XorByte(0x1b, 0xab) == 0xb0
    ensures XorByte(0x40, 0xb0) == 0xf0
    ensures XorByte(0x10, 0xf0) == 0xe0
  {
    XorIs(0x1b, 0xab, 0xb0);
    XorIs(0x40, 0xb0, 0xf0);
    XorIs(0x10, 0xf0, 0xe0);
  }

  lemma Xors5eb()
    ensures XorByte(0x04, 0xe0) == 0xe4
  {
    XorIs(0x04, 0xe0, 0xe4);
  }

  lemma Square5e()
    ensures Square(0x5e) == 0xe4
  {
    Xors5ea();
    Xors5eb();
    SumsLaws();
    SquareIs(0x5e);
    PickEight(Sums(), SQUARES, [false, true, true, true, true, false, true, false]);
  }

  lemma Xorse4()
    ensures XorByte(0xab, 0x9a) == 0x31
    ensures XorByte(0x6c, 0x31) == 0x5d
    ensures XorByte(0x10, 0x5d) == 0x4d
  {
    XorIs(0xab, 0x9a, 0x31);
    XorIs(0x6c, 0x31, 0x5d);
    XorIs(0x10, 0x5d, 0x4d);
  }

  lemma Squaree4()
    ensures Square(0xe4) == 0x4d
  {
    Xorse4();
    SumsLaws();
    SquareIs(0xe4);
    PickEight(Sums(), SQUARES, [false, false, true, false, false, true, true, true]);
  }

  lemma Xors4d()
    ensures XorByte(0x40, 0xab) == 0xeb
    ensures XorByte(0x10, 0xeb) == 0xfb
    ensures XorByte(0x01, 0xfb) == 0xfa
  {
    XorIs(0x40, 0xab, 0xeb);
    XorIs(0x10, 0xeb, 0xfb);
    XorIs(0x01, 0xfb, 0xfa);
  }

  lemma Square4d()
    ensures Square(0x4d) == 0xfa
  {
    Xors4d();
    SumsLaws();
    SquareIs(0x4d);
    PickEight(Sums(), SQUARES, [true, false, true, true, false, false, true, false]);
  }

  lemma Xorsfaa()
    ensures XorByte(0xab, 0x9a) == 0x31
    ensures XorByte(0x6c, 0x31) == 0x5d
    ensures XorByte(0x1b, 0x5d) == 0x46
  {
    XorIs(0xab, 0x9a, 0x31);
    XorIs(0x6c, 0x31, 0x5d);
    XorIs(0x1b, 0x5d, 0x46);
  }

  lemma Xorsfab()
    ensures XorByte(0x40, 0x46) == 0x06
    ensures XorByte(0x04, 0x06) == 0x02
  {
    XorIs(0x40, 0x46, 0x06);
    XorIs(0x04, 0x06, 0x02);
  }

  lemma Squarefa()
    ensures Square(0xfa) == 0x02
  {
    Xorsfaa();
    Xorsfab();
    SumsLaws();
    SquareIs(0xfa);
    PickEight(Sums(), SQUARES, [false, true, false, true, true, true, true, true]);
  }

  /** What comes of 2 by squaring, four times twice. */
  lemma TwoReturns()
    ensures Iterate(Square, 2, 8) == 2
  {
    FirstSquares(2, 0);
    NextSquares(2, 2);
    MoreSquares(2, 4);
    LastSquares(2, 6);
  }

  lemma FirstSquares(x: u8, n: nat)
    requires Iterate(Square, x, n) == 2
    ensures Iterate(Square, x, n + 2) == 0x10
  {
    LowSquares();
    BasisStep(0);
    assert Basis(2) == 4;
    assert Iterate(Square, x, n + 1) == 4;
  }

  lemma NextSquares(x: u8, n: nat)
    requires Iterate(Square, x, n) == 0x10
    ensures Iterate(Square, x, n + 2) == 0x5e
  {
    MiddleSquares();
    assert Basis(4) == 0x10;
    Square1b();
    assert Iterate(Square, x, n + 1) == 0x1b;
  }

  lemma MoreSquares(x: u8, n: nat)
    requires Iterate(Square, x, n) == 0x5e
    ensures Iterate(Square, x, n + 2) == 0x4d
  {
    Square5e();
    Squaree4();
    assert Iterate(Square, x, n + 1) == 0xe4;
  }

  lemma LastSquares(x: u8, n: nat)
    requires Iterate(Square, x, n) == 0x4d
    ensures Iterate(Square, x, n + 2) == 2
  {
    Square4d();
    Squarefa();
    assert Iterate(Square, x, n + 1) == 0xfa;
  }

  lemma {:induction false} OneStays(n: nat)
    ensures Iterate(Square, 1, n) == 1
  {
    TimesOne(1);
    if n > 0 { OneStays(n - 1); }
  }

  lemma {:induction false} BasisReturns(i: nat)
    requires i < 8
    ensures Iterate(Square, Basis(i), 8) == Basis(i)
  {
    BasisStep(0);
    if i == 0 {
      OneStays(8);
    } else {
      BasisReturns(i - 1);
      TwoReturns();
      SquareKeeps();
      IterateKeeps(Square, Times, Basis(i - 1), 2, 8);
      DoubleIsTimesTwo(Basis(i - 1));
      BasisStep(i - 1);
    }
  }

  lemma DoubleIsTimesTwo(a: u8)
    ensures Double(a) == Times(a, 2)
  {
    BasisStep(0);
    TimesBasis(a, 0);
    TimesBasis(a, 1);
    PowersStep(a, 8, 0);
  }

  function Returned(x: u8): u8
  {
    Iterate(Square, x, 8)
  }

  /** Squaring eight times gives every element back. */
  lemma Returns(x: u8)
    ensures Iterate(Square, x, 8) == x
  {
    SameAdds();
    SquareKeeps();
    forall a, b ensures AddsAt(Sums(), Returned, a, b) { IterateKeeps(Square, XorByte, a, b, 8); }
    forall i: nat | i < 8 ensures Returned(Basis(i)) == Same(Basis(i)) { BasisReturns(i); }
    SameOnBasis(Returned, Same, x);
  }

  lemma Power256(x: u8)
    ensures Power(x, 256) == x
  {
    ProductLaws();
    TimesOne(x);
    Pow2Of64();
    Returns(x);
    SquaringRepeats(Products(), x, 8);
    IterateSame((y: u8) => Products().apply(y, y), Square, x, 8);
  }

  lemma {:induction false} IterateSame<T(!new)>(f: T -> T, h: T -> T, x: T, n: nat)
    requires forall y :: f(y) == h(y)
    ensures Iterate(f, x, n) == Iterate(h, x, n)
  {
    if n > 0 { IterateSame(f, h, x, n - 1); }
  }

  lemma PowerOne(x: u8)
    ensures Power(x, 1) == x
  {
    assert Power(x, 0) == 1;
    TimesOne(x);
  }

  // ---- the inverse -----------------------------------------------------------------------------

  /** x^254, always by the same eleven products. */
  function Invert(x: u8): u8
  {
    var x2 := Times(x, x);
    var x3 := Times(x2, x);
    var x6 := Times(x3, x3);
    var x12 := Times(x6, x6);
    var x15 := Times(x12, x3);
    var x30 := Times(x15, x15);
    var x60 := Times(x30, x30);
    var x120 := Times(x60, x60);
    var x240 := Times(x120, x120);
    var x252 := Times(x240, x12);
    Times(x252, x2)
  }

  lemma InvertIsPower(x: u8)
    ensures Invert(x) == Power(x, 254)
  {
    var m := Products();
    ProductLaws();
    PowerOne(x);
    RepeatAdd(m, x, 1, 1);
    RepeatAdd(m, x, 2, 1);
    RepeatAdd(m, x, 3, 3);
    RepeatAdd(m, x, 6, 6);
    RepeatAdd(m, x, 12, 3);
    RepeatAdd(m, x, 15, 15);
    RepeatAdd(m, x, 30, 30);
    RepeatAdd(m, x, 60, 60);
    RepeatAdd(m, x, 120, 120);
    RepeatAdd(m, x, 240, 12);
    RepeatAdd(m, x, 252, 2);
  }

  lemma InvertTwice(x: u8)
    ensures Invert(Invert(x)) == x
  {
    InvertIsPower(x);
    InvertIsPower(Invert(x));
    ProductLaws();
    RepeatRepeat(Products(), x, 254, 254);
    Power256(x);
    PowerOne(x);
    RepeatWraps(Products(), x, 255, 1, 253);
    assert 254 * 254 == 1 + 255 * 253;
  }

  // ---- the S-box -------------------------------------------------------------------------------

  /** Rotated left by one: the bit that falls off comes in at the other end. */
  function RotateOne(a: u8): u8
  {
    Shifted(a, 1)
  }

  lemma RotateOneIs(a: u8)
    ensures RotateOne(a) as nat == if a < 0x80 then 2 * a as nat else 2 * a as nat - 255
  {
    XorStep(Low(a) as nat, 1);
    XorByteLaws(0, Low(a), 0);
    XorByteLaws(Low(a), 0, 0);
    assert Xor(Low(a) as nat / 2, 0) == Low(a) as nat / 2;
  }

  /** `a.rotate_left(k)`. */
  function Rotate(a: u8, k: nat): u8
  {
    Iterate(RotateOne, a, k)
  }

  lemma RotateSum(a: u8, b: u8, k: nat)
    ensures Rotate(XorByte(a, b), k) == XorByte(Rotate(a, k), Rotate(b, k))
  {
    forall x, y ensures KeepsAt(RotateOne, XorByte, x, y) { ShiftedSum(x, y, 1); }
    IterateKeeps(RotateOne, XorByte, a, b, k);
  }

  lemma {:induction false} RotateTurns(a: u8, k: nat)
    ensures Rotate(RotateOne(a), k) == RotateOne(Rotate(a, k))
  {
    if k > 0 { RotateTurns(a, k - 1); }
  }

  /** The matrix of the S-box: the sum of five rotations. */
  function Mixed(b: u8): u8
  {
    Sum5(Sums(), b, Rotate(b, 1), Rotate(b, 2), Rotate(b, 3), Rotate(b, 4))
  }

  /** The matrix of the inverse S-box. */
  function Unmixed(s: u8): u8
  {
    Sum3(Sums(), Rotate(s, 1), Rotate(s, 3), Rotate(s, 6))
  }

  lemma MixedSum(a: u8, b: u8)
    ensures Mixed(XorByte(a, b)) == XorByte(Mixed(a), Mixed(b))
    ensures Mixed(RotateOne(a)) == RotateOne(Mixed(a))
  {
    SumsLaws();
    RotateSum(a, b, 1);
    RotateSum(a, b, 2);
    RotateSum(a, b, 3);
    RotateSum(a, b, 4);
    Sum5Add(Sums(), a, Rotate(a, 1), Rotate(a, 2), Rotate(a, 3), Rotate(a, 4),
      b, Rotate(b, 1), Rotate(b, 2), Rotate(b, 3), Rotate(b, 4));
    RotateTurns(a, 1);
    RotateTurns(a, 2);
    RotateTurns(a, 3);
    RotateTurns(a, 4);
    RotateSum5(a, Rotate(a, 1), Rotate(a, 2), Rotate(a, 3), Rotate(a, 4));
  }

  lemma RotateSum3(a: u8, b: u8, c: u8)
    ensures RotateOne(Sum3(Sums(), a, b, c)) == Sum3(Sums(), RotateOne(a), RotateOne(b), RotateOne(c))
  {
    ShiftedSum(XorByte(a, b), c, 1);
    ShiftedSum(a, b, 1);
  }

  lemma RotateSum5(a: u8, b: u8, c: u8, d: u8, e: u8)
    ensures RotateOne(Sum5(Sums(), a, b, c, d, e))
      == Sum5(Sums(), RotateOne(a), RotateOne(b), RotateOne(c), RotateOne(d), RotateOne(e))
  {
    RotateSum3(a, b, c);
    ShiftedSum(Sum3(Sums(), a, b, c), d, 1);
    ShiftedSum(XorByte(Sum3(Sums(), a, b, c), d), e, 1);
  }

  lemma UnmixedSum(a: u8, b: u8)
    ensures Unmixed(XorByte(a, b)) == XorByte(Unmixed(a), Unmixed(b))
    ensures Unmixed(RotateOne(a)) == RotateOne(Unmixed(a))
  {
    SumsLaws();
    RotateSum(a, b, 1);
    RotateSum(a, b, 3);
    RotateSum(a, b, 6);
    Sum3Add(Sums(), Rotate(a, 1), Rotate(a, 3), Rotate(a, 6), Rotate(b, 1), Rotate(b, 3), Rotate(b, 6));
    RotateTurns(a, 1);
    RotateTurns(a, 3);
    RotateTurns(a, 6);
    RotateSum3(Rotate(a, 1), Rotate(a, 3), Rotate(a, 6));
  }

  lemma {:induction false} BasisTurns(f: u8 -> u8, i: nat)
    requires i < 8 && f(1) == 1 && forall x :: f(RotateOne(x)) == RotateOne(f(x))
    ensures f(Basis(i)) == Basis(i)
  {
    BasisStep(0);
    if i > 0 {
      BasisTurns(f, i - 1);
      BasisStep(i - 1);
      RotateOneIs(Basis(i - 1));
      Pow2Monotone(i - 1, 6);
      assert Pow2(6) == 64;
    }
  }

  lemma Mixed01Xors()
    ensures XorByte(0x01, 0x02) == 0x03
    ensures XorByte(0x03, 0x04) == 0x07
    ensures XorByte(0x07, 0x08) == 0x0f
    ensures XorByte(0x0f, 0x10) == 0x1f
  {
    XorIs(0x01, 0x02, 0x03);
    XorIs(0x03, 0x04, 0x07);
    XorIs(0x07, 0x08, 0x0f);
    XorIs(0x0f, 0x10, 0x1f);
  }

  lemma Mixed01()
    ensures Mixed(0x01) == 0x1f
  {
    Mixed01Xors();
    RotateOneIs(0x01);
    RotateOneIs(0x02);
    RotateOneIs(0x04);
    RotateOneIs(0x08);
    assert Rotate(0x01, 1) == 0x02;
    assert Rotate(0x01, 2) == 0x04;
    assert Rotate(0x01, 3) == 0x08;
  }

  lemma Unmixed1fXors()
    ensures XorByte(0x3e, 0xf8) == 0xc6
    ensures XorByte(0xc6, 0xc7) == 0x01
  {
    XorIs(0x3e, 0xf8, 0xc6);
    XorIs(0xc6, 0xc7, 0x01);
  }

  lemma Unmixed1f()
    ensures Unmixed(0x1f) == 0x01
  {
    Unmixed1fXors();
    RotateOneIs(0x1f);
    RotateOneIs(0x3e);
    RotateOneIs(0x7c);
    RotateOneIs(0xf8);
    RotateOneIs(0xf1);
    RotateOneIs(0xe3);
    assert Rotate(0x1f, 1) == 0x3e;
    assert Rotate(0x1f, 2) == 0x7c;
    assert Rotate(0x1f, 3) == 0xf8;
    assert Rotate(0x1f, 4) == 0xf1;
    assert Rotate(0x1f, 5) == 0xe3;
  }

  lemma Unmixed01Xors()
    ensures XorByte(0x02, 0x08) == 0x0a
    ensures XorByte(0x0a, 0x40) == 0x4a
  {
    XorIs(0x02, 0x08, 0x0a);
    XorIs(0x0a, 0x40, 0x4a);
  }

  lemma Unmixed01()
    ensures Unmixed(0x01) == 0x4a
  {
    Unmixed01Xors();
    RotateOneIs(0x01);
    RotateOneIs(0x02);
    RotateOneIs(0x04);
    RotateOneIs(0x08);
    RotateOneIs(0x10);
    RotateOneIs(0x20);
    assert Rotate(0x01, 1) == 0x02;
    assert Rotate(0x01, 2) == 0x04;
    assert Rotate(0x01, 3) == 0x08;
    assert Rotate(0x01, 4) == 0x10;
    assert Rotate(0x01, 5) == 0x20;
  }

  lemma Mixed4aXors()
    ensures XorByte(0x4a, 0x94) == 0xde
    ensures XorByte(0xde, 0x29) == 0xf7
    ensures XorByte(0xf7, 0x52) == 0xa5
    ensures XorByte(0xa5, 0xa4) == 0x01
  {
    XorIs(0x4a, 0x94, 0xde);
    XorIs(0xde, 0x29, 0xf7);
    XorIs(0xf7, 0x52, 0xa5);
    XorIs(0xa5, 0xa4, 0x01);
  }

  lemma Mixed4a()
    ensures Mixed(0x4a) == 0x01
  {
    Mixed4aXors();
    RotateOneIs(0x4a);
    RotateOneIs(0x94);
    RotateOneIs(0x29);
    RotateOneIs(0x52);
    assert Rotate(0x4a, 1) == 0x94;
    assert Rotate(0x4a, 2) == 0x29;
    assert Rotate(0x4a, 3) == 0x52;
  }

  lemma Unmixed63Xors()
    ensures XorByte(0xc6, 0x1b) == 0xdd
    ensures XorByte(0xdd, 0xd8) == 0x05
  {
    XorIs(0xc6, 0x1b, 0xdd);
    XorIs(0xdd, 0xd8, 0x05);
  }

  lemma Unmixed63()
    ensures Unmixed(0x63) == 0x05
  {
    Unmixed63Xors();
    RotateOneIs(0x63);
    RotateOneIs(0xc6);
    RotateOneIs(0x8d);
    RotateOneIs(0x1b);
    RotateOneIs(0x36);
    RotateOneIs(0x6c);
    assert Rotate(0x63, 1) == 0xc6;
    assert Rotate(0x63, 2) == 0x8d;
    assert Rotate(0x63, 3) == 0x1b;
    assert Rotate(0x63, 4) == 0x36;
    assert Rotate(0x63, 5) == 0x6c;
  }

  lemma Mixed05Xors()
    ensures XorByte(0x05, 0x0a) == 0x0f
    ensures XorByte(0x0f, 0x14) == 0x1b
    ensures XorByte(0x1b, 0x28) == 0x33
    ensures XorByte(0x33, 0x50) == 0x63
  {
    XorIs(0x05, 0x0a, 0x0f);
    XorIs(0x0f, 0x14, 0x1b);
    XorIs(0x1b, 0x28, 0x33);
    XorIs(0x33, 0x50, 0x63);
  }

  lemma Mixed05()
    ensures Mixed(0x05) == 0x63
  {
    Mixed05Xors();
    RotateOneIs(0x05);
    RotateOneIs(0x0a);
    RotateOneIs(0x14);
    RotateOneIs(0x28);
    assert Rotate(0x05, 1) == 0x0a;
    assert Rotate(0x05, 2) == 0x14;
    assert Rotate(0x05, 3) == 0x28;
  }

  function SubByte(x: u8): u8
  {
    XorByte(Mixed(Invert(x)), 0x63)
  }

  function InvSubByte(s: u8): u8
  {
    Invert(XorByte(Unmixed(s), 0x05))
  }

  function Back(b: u8): u8
  {
    Unmixed(Mixed(b))
  }

  function Forth(b: u8): u8
  {
    Mixed(Unmixed(b))
  }

  /** The matrices of the S-box and its inverse undo each other. */
  lemma MatricesInverse(b: u8)
    ensures Unmixed(Mixed(b)) == b && Mixed(Unmixed(b)) == b
  {
    SameAdds();
    forall x, y ensures AddsAt(Sums(), Back, x, y) {
      MixedSum(x, y);
      UnmixedSum(Mixed(x), Mixed(y));
    }
    forall x, y ensures AddsAt(Sums(), Forth, x, y) {
      UnmixedSum(x, y);
      MixedSum(Unmixed(x), Unmixed(y));
    }
    MatricesOne();
    forall i: nat | i < 8 ensures Back(Basis(i)) == Same(Basis(i)) && Forth(Basis(i)) == Same(Basis(i)) {
      BasisTurns(Back, i);
      BasisTurns(Forth, i);
    }
    SameOnBasis(Back, Same, b);
    SameOnBasis(Forth, Same, b);
  }

  lemma MatricesOne()
    ensures Back(1) == 1 && Forth(1) == 1
    ensures forall x :: Back(RotateOne(x)) == RotateOne(Back(x))
    ensures forall x :: Forth(RotateOne(x)) == RotateOne(Forth(x))
  {
    Mixed01();
    Unmixed1f();
    Unmixed01();
    Mixed4a();
    forall x ensures Back(RotateOne(x)) == RotateOne(Back(x)) {
      MixedSum(x, x);
      UnmixedSum(Mixed(x), x);
    }
    forall x ensures Forth(RotateOne(x)) == RotateOne(Forth(x)) {
      UnmixedSum(x, x);
      MixedSum(Unmixed(x), x);
    }
  }

  /** The S-box and the inverse S-box undo each other. */
  lemma BoxesInverse(x: u8)
    ensures InvSubByte(SubByte(x)) == x && SubByte(InvSubByte(x)) == x
  {
    BoxThere(Invert(x));
    InvertTwice(x);
    BoxBack(x);
    InvertTwice(XorByte(Unmixed(x), 0x05));
  }

  lemma BoxThere(b: u8)
    ensures XorByte(Unmixed(XorByte(Mixed(b), 0x63)), 0x05) == b
  {
    UnmixedSum(Mixed(b), 0x63);
    Unmixed63();
    MatricesInverse(b);
    XorByteCancels(b, 0x05);
  }

  lemma BoxBack(x: u8)
    ensures XorByte(Mixed(XorByte(Unmixed(x), 0x05)), 0x63) == x
  {
    MixedSum(Unmixed(x), 0x05);
    Mixed05();
    MatricesInverse(x);
    XorByteCancels(x, 0x63);
  }
}
