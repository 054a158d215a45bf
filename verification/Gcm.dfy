/** AES-GCM over any block cipher (gcm.rs; SP 800-38D). */
module Gcm {
  import opened Options
  import opened Words
  import opened Bytes
  import opened Linear
  import opened Rijndael

  const TWO128: nat := 0x1_0000_0000_0000_0000_0000_0000_0000_0000


  // ---- 128-bit values under exclusive-or ----------------------------------------------------

  lemma Pow2Of128()
    ensures Pow2(127 + 1) == TWO128
  {
    Pow2Of64();
    Pow2Add(64, 64);
  }

  lemma XorBound128(a: nat, b: nat)
    requires a < TWO128 && b < TWO128
    ensures Xor(a, b) < TWO128
  {
    Pow2Of128();
    XorBound(a, b, 127 + 1);
  }

  function Xor128(a: u128, b: u128): (r: u128)
    ensures r as nat == Xor(a as nat, b as nat)
  {
    XorBound128(a as nat, b as nat);
    Xor(a as nat, b as nat) as u128
  }

  function Values(): Group<u128>
  {
    Group(0, Xor128)
  }

  lemma ValuesLaws()
    ensures GroupLaws(Values())
  {
    forall x: u128, y: u128, z: u128 ensures LawAt(Values(), x, y, z) {
      XorCommutes(x as nat, y as nat);
      XorAssociates(x as nat, y as nat, z as nat);
      XorSelf(x as nat);
    }
  }

  // ---- the product ---------------------------------------------------------------------------

  const R: u128 := 0xe1_0000_0000_0000_0000_0000_0000_0000_00

  function Reduction(v: u128): u128
  {
    if v % 2 == 1 then R else 0
  }

  /** Times x: the shift right, the reduction xor-ed in for the bit that falls off. */
  function Halve(v: u128): u128
  {
    Xor128(v / 2, Reduction(v))
  }

  lemma HalveAdds(a: u128, b: u128)
    ensures Halve(Xor128(a, b)) == Xor128(Halve(a), Halve(b))
  {
    XorHalf(a as nat, b as nat);
    ValuesLaws();
    ZeroLaws(Values(), R);
    ZeroLaws(Values(), 0);
    Swap4(Values(), a / 2, Reduction(a), b / 2, Reduction(b));
  }

  /** v, v x, v x^2 and so on. */
  function Terms(v: u128, n: nat): (r: seq<u128>)
    ensures |r| == n
    decreases n
  {
    if n == 0 then [] else [v] + Terms(Halve(v), n - 1)
  }

  /** The product: the sum of y x^i over the bits i of x, counted from the top. */
  function Product(x: u128, y: u128): u128
  {
    Pick(Values(), Terms(y, 128), HighBits(x as nat, 128))
  }

  lemma {:induction false} TermsSum(a: u128, b: u128, n: nat, i: nat)
    requires i < n
    ensures Terms(Xor128(a, b), n)[i] == Xor128(Terms(a, n)[i], Terms(b, n)[i])
    decreases n
  {
    HalveAdds(a, b);
    if i > 0 { TermsSum(Halve(a), Halve(b), n - 1, i - 1); }
  }

  lemma {:induction false} HighBitsSum(a: nat, b: nat, n: nat, i: nat)
    requires i < n
    ensures HighBits(Xor(a, b), n)[i] == (HighBits(a, n)[i] != HighBits(b, n)[i])
  {
    XorHalf(a, b);
    if i < n - 1 { HighBitsSum(a / 2, b / 2, n - 1, i); }
  }

  /** The product distributes over sums on both sides. */
  lemma Distributes(a: u128, b: u128, y: u128)
    ensures Product(Xor128(a, b), y) == Xor128(Product(a, y), Product(b, y))
    ensures Product(y, Xor128(a, b)) == Xor128(Product(y, a), Product(y, b))
  {
    ValuesLaws();
    var c := Xor128(a, b);
    var p, q, r := HighBits(a as nat, 128), HighBits(b as nat, 128), HighBits(c as nat, 128);
    forall i: nat | i < 128 ensures r[i] == (p[i] != q[i]) { HighBitsSum(a as nat, b as nat, 128, i); }
    PickXor(Values(), Terms(y, 128), p, q, r);
    var u, v, w := Terms(a, 128), Terms(b, 128), Terms(c, 128);
    forall i: nat | i < 128 ensures w[i] == Xor128(u[i], v[i]) { TermsSum(a, b, 128, i); }
    PickAdd(Values(), u, v, w, HighBits(y as nat, 128));
  }

  /** All ones when the bit is set: `0u128.wrapping_sub(bit)`. */
  function Mask(bit: u128): u128
    requires bit <= 1
  {
    ((TWO128 - bit as nat) % TWO128) as u128
  }

  function And128(a: u128, b: u128): (r: u128)
    ensures r as nat == And(a as nat, b as nat)
  {
    AndBound(a as nat, b as nat);
    And(a as nat, b as nat) as u128
  }

  lemma MaskKeeps(a: u128, bit: u128)
    requires bit <= 1
    ensures And128(a, Mask(bit)) == if bit == 1 then a else 0
  {
    if bit == 1 {
      Pow2Of128();
      AndMask(a as nat, 127 + 1);
    }
  }

  lemma {:induction false} HighBitAt(v: nat, n: nat, i: nat)
    requires i < n
    ensures HighBits(v, n)[i] <==> v / Pow2(n - 1 - i) % 2 == 1
  {
    if i < n - 1 {
      HighBitAt(v / 2, n - 1, i);
      DivMul(v, 2, Pow2(n - 2 - i));
    } else {
      assert v / 1 == v;
    }
  }

  /** What is left of the product after i steps, v being y x^i. */
  function Rest(bits: seq<bool>, v: u128, i: nat): u128
    requires i <= |bits|
  {
    Pick(Values(), Terms(v, |bits| - i), bits[i..])
  }

  lemma RestStep(bits: seq<bool>, z: u128, v: u128, i: nat)
    requires i < |bits|
    ensures Xor128(z, Rest(bits, v, i)) == Xor128(Xor128(z, if bits[i] then v else 0), Rest(bits, Halve(v), i + 1))
  {
    assert Terms(v, |bits| - i)[1..] == Terms(Halve(v), |bits| - (i + 1));
    assert bits[i..][1..] == bits[i + 1..];
    ValuesLaws();
    assert LawAt(Values(), z, if bits[i] then v else 0, Rest(bits, Halve(v), i + 1));
  }

  /** The bit of x that step i looks at. */
  function StepBit(x: u128, i: nat): (bit: u128)
    requires i < 128
    ensures bit <= 1 && (HighBits(x as nat, 128)[i] <==> bit == 1)
  {
    HighBitAt(x as nat, 128, i);
    (ShiftRight(x as nat, 127 - i) % 2) as u128
  }

  lemma HalveMasked(v: u128)
    ensures Xor128(v / 2, And128(R, Mask(v % 2))) == Halve(v)
  {
    MaskKeeps(R, v % 2);
  }

  /** The same 128 steps whatever the factors. */
  method Multiply(x: u128, y: u128) returns (z: u128)
    ensures z == Product(x, y)
  {
    z := 0;
    var v := y;
    ghost var bits := HighBits(x as nat, 128);
    ValuesLaws();
    ZeroLaws(Values(), Product(x, y));
    assert bits[0..] == bits;
    for i := 0 to 128
      invariant Xor128(z, Rest(bits, v, i)) == Product(x, y)
    {
      var bit := StepBit(x, i);
      RestStep(bits, z, v, i);
      MaskKeeps(v, bit);
      HalveMasked(v);
      z := Xor128(z, And128(v, Mask(bit)));
      v := Xor128(v / 2, And128(R, Mask(v % 2)));
    }
    ZeroLaws(Values(), z);
  }

  // ---- GHASH -----------------------------------------------------------------------------------

  /** The big-endian value of a block. */
  function FromBlock(b: Block): u128
  {
    Pow2Of128();
    BigEndianBound(b);
    BigEndian(b) as u128
  }

  function ToBlock(n: u128): Block
  {
    Reverse(LittleBytes(n as nat, 16))
  }

  lemma BlockValue(b: Block)
    ensures ToBlock(FromBlock(b)) == b
  {
    BytesRoundTrip(Reverse(b));
    assert Reverse(Reverse(b)) == b;
  }

  /** The data as values, its last block padded with zeros. */
  function Padded(data: seq<u8>): (r: seq<u128>)
    ensures |r| == (|data| + 15) / 16
  {
    if data == [] then []
    else if |data| < 16 then [FromBlock(data + seq(16 - |data|, i => 0))]
    else [FromBlock(data[..16])] + Padded(data[16..])
  }

  /** Every value in turn is added, and the sum multiplied by h. */
  function Hashed(h: u128, state: u128, x: seq<u128>): u128
    decreases |x|
  {
    if x == [] then state else Hashed(h, Product(Xor128(state, x[0]), h), x[1..])
  }

  function TimesH(h: u128): u128 -> u128
  {
    v => Product(v, h)
  }

  /** The polynomial in h whose coefficients the values are. */
  function Polynomial(h: u128, x: seq<u128>): u128
    decreases |x|
  {
    if x == [] then 0 else Xor128(Iterate(TimesH(h), x[0], |x|), Polynomial(h, x[1..]))
  }

  lemma {:induction false} IterateShift<T>(f: T -> T, x: T, n: nat)
    ensures Iterate(f, f(x), n) == Iterate(f, x, n + 1)
  {
    if n > 0 { IterateShift(f, x, n - 1); }
  }

  /** GHASH is the value of a polynomial: each value times h once for itself and once for
      each value after it. */
  lemma {:induction false} HashIsPolynomial(h: u128, state: u128, x: seq<u128>)
    ensures Hashed(h, state, x) == Xor128(Iterate(TimesH(h), state, |x|), Polynomial(h, x))
    decreases |x|
  {
    ValuesLaws();
    var g, f := Values(), TimesH(h);
    if x == [] {
      ZeroLaws(g, state);
    } else {
      var n := |x| - 1;
      var next := f(Xor128(state, x[0]));
      HashIsPolynomial(h, next, x[1..]);
      IterateShift(f, Xor128(state, x[0]), n);
      forall a, b ensures KeepsAt(f, Xor128, a, b) { Distributes(a, b, h); }
      IterateKeeps(f, Xor128, state, x[0], n + 1);
      assert LawAt(g, Iterate(f, state, n + 1), Iterate(f, x[0], n + 1), Polynomial(h, x[1..]));
    }
  }

  lemma HashedStep(h: u128, state: u128, rest: seq<u8>, n: nat, block: Block)
    requires rest != [] && n == (if |rest| < 16 then |rest| else 16) && block == rest[..n] + seq(16 - n, i => 0)
    ensures Hashed(h, state, Padded(rest)) == Hashed(h, Product(Xor128(state, FromBlock(block)), h), Padded(rest[n..]))
  {
    assert n == 16 ==> block == rest[..16];
    assert n < 16 ==> rest[..n] == rest && rest[n..] == [];
    assert Padded(rest) == [FromBlock(block)] + Padded(rest[n..]);
  }

  /** The next chunk of the data, and what is left of it. */
  method GhashChunk(h: u128, state: u128, data: seq<u8>) returns (next: u128, rest: seq<u8>)
    requires data != []
    ensures |rest| < |data| && Hashed(h, next, Padded(rest)) == Hashed(h, state, Padded(data))
  {
    var n := if |data| < 16 then |data| else 16;
    var block: Block := data[..n] + seq(16 - n, i => 0);
    HashedStep(h, state, data, n, block);
    next := Multiply(Xor128(state, FromBlock(block)), h);
    rest := data[n..];
  }

  method GhashBlocks(h: u128, start: u128, data: seq<u8>) returns (state: u128)
    ensures state == Hashed(h, start, Padded(data))
  {
    state := start;
    var rest := data;
    ghost var all := Hashed(h, start, Padded(data));
    while rest != []
      invariant Hashed(h, state, Padded(rest)) == all
      decreases |rest|
    {
      state, rest := GhashChunk(h, state, rest);
    }
  }

  lemma {:induction false} OrBound(a: nat, b: nat, k: nat)
    requires a < Pow2(k) && b < Pow2(k)
    ensures Or(a, b) < Pow2(k)
    decreases k
  {
    if k > 0 && a != 0 && b != 0 { OrBound(a / 2, b / 2, k - 1); }
  }

  /** Both lengths in bits: `((associated * 8) << 64) | (ciphertext * 8)`. */
  function Lengths(associated: nat, ciphertext: nat): u128
  {
    var high, low := (8 * associated * TWO64) % TWO128, (8 * ciphertext) % TWO128;
    Pow2Of128();
    OrBound(high, low, 127 + 1);
    Or(high, low) as u128
  }

  /** Lengths that fit their halves stand side by side. */
  lemma LengthsApart(associated: nat, ciphertext: nat)
    requires 8 * associated < TWO64 && 8 * ciphertext < TWO64
    ensures Lengths(associated, ciphertext) as nat == 8 * associated * TWO64 + 8 * ciphertext
  {
    assert Pow2(64) == TWO64 by { Pow2Of64(); }
    ProductBound(8 * associated, TWO64, TWO64 - 1, TWO64);
    ModUnique(8 * associated * TWO64, TWO128, 0, 8 * associated * TWO64);
    ModUnique(8 * ciphertext, TWO128, 0, 8 * ciphertext);
    OrDisjoint(8 * ciphertext, 8 * associated, 64);
    OrCommutes(8 * associated * TWO64, 8 * ciphertext);
  }

  lemma {:induction false} OrCommutes(a: nat, b: nat)
    ensures Or(a, b) == Or(b, a)
    decreases a + b
  {
    if a != 0 && b != 0 { OrCommutes(a / 2, b / 2); }
  }

  function GhashOf(h: u128, associated: seq<u8>, ciphertext: seq<u8>): u128
  {
    var state := Hashed(h, Hashed(h, 0, Padded(associated)), Padded(ciphertext));
    Product(Xor128(state, Lengths(|associated|, |ciphertext|)), h)
  }

  lemma {:induction false} HashedAppend(h: u128, state: u128, x: seq<u128>, y: seq<u128>)
    ensures Hashed(h, Hashed(h, state, x), y) == Hashed(h, state, x + y)
    decreases |x|
  {
    if x == [] {
      assert x + y == y;
    } else {
      HashedAppend(h, Product(Xor128(state, x[0]), h), x[1..], y);
      assert (x + y)[1..] == x[1..] + y;
    }
  }

  /** The hash is one polynomial over the associated data, the ciphertext and their
      lengths (section 6.4 of SP 800-38D). */
  lemma GhashIs(h: u128, associated: seq<u8>, ciphertext: seq<u8>)
    ensures GhashOf(h, associated, ciphertext)
      == Polynomial(h, Padded(associated) + Padded(ciphertext) + [Lengths(|associated|, |ciphertext|)])
  {
    var x, y, l := Padded(associated), Padded(ciphertext), Lengths(|associated|, |ciphertext|);
    HashedAppend(h, 0, x, y);
    HashedAppend(h, 0, x + y, [l]);
    var state := Hashed(h, 0, x + y);
    assert [l][1..] == [];
    assert Hashed(h, state, [l]) == Hashed(h, Product(Xor128(state, l), h), []);
    HashIsPolynomial(h, 0, x + y + [l]);
    ZeroPowers(h, |x + y + [l]|);
    ValuesLaws();
    ZeroLaws(Values(), Polynomial(h, x + y + [l]));
  }

  lemma {:induction false} ZeroPowers(h: u128, n: nat)
    ensures Iterate(TimesH(h), 0, n) == 0
  {
    if n > 0 {
      ZeroPowers(h, n - 1);
      ZeroTimes(h);
    }
  }

  lemma ZeroTimes(h: u128)
    ensures Product(0, h) == 0
  {
    ValuesLaws();
    Distributes(0, 0, h);
    ZeroLaws(Values(), 0);
    ZeroLaws(Values(), Product(0, h));
  }

  method Ghash(h: u128, associated: seq<u8>, ciphertext: seq<u8>) returns (r: u128)
    ensures r == GhashOf(h, associated, ciphertext)
  {
    var state := GhashBlocks(h, 0, associated);
    state := GhashBlocks(h, state, ciphertext);
    r := Multiply(Xor128(state, Lengths(|associated|, |ciphertext|)), h);
  }

  // ---- the counter ---------------------------------------------------------------------------------

  const LOW32: nat := 0x1_0000_0000

  /** The counter block k steps on: its low 32 bits wrap, the rest stays. */
  function CounterAt(counter: u128, k: nat): u128
  {
    CounterParts(counter as nat, k);
    WithLow(counter as nat / LOW32, (counter as nat % LOW32 + k) % LOW32) as u128
  }

  function WithLow(high: nat, low: nat): nat
  {
    LOW32 * high + low
  }

  /** `high | u128::from(low)` of the high bits and the low word plus one. */
  function Increment(counter: u128): u128
  {
    var c := counter as nat;
    ShlOrWord((c % LOW32 + 1) % LOW32, c / LOW32) as u128
  }

  function ShlOrWord(low: nat, high: nat): (r: nat)
    requires low < LOW32 && high < TWO128 / LOW32
    ensures r == low + LOW32 * high && r < TWO128
  {
    Pow2Of64();
    OrDisjoint(low, high, 32);
    Or(low, high * Pow2(32))
  }

  lemma CounterNext(counter: u128, k: nat)
    ensures Increment(CounterAt(counter, k)) == CounterAt(counter, k + 1)
    ensures CounterAt(counter, 0) == counter
  {
    CounterParts(counter as nat, k);
    CounterParts(counter as nat, 0);
  }

  lemma CounterParts(c: nat, k: nat)
    ensures var x := WithLow(c / LOW32, (c % LOW32 + k) % LOW32);
      && x / LOW32 == c / LOW32 && x % LOW32 == (c % LOW32 + k) % LOW32
      && (x % LOW32 + 1) % LOW32 == (c % LOW32 + (k + 1)) % LOW32 && (c < TWO128 ==> x < TWO128)
    ensures k == 0 ==> WithLow(c / LOW32, (c % LOW32 + k) % LOW32) == c
  {
    QuotientRemainder(c, LOW32);
    ModUnique(WithLow(c / LOW32, (c % LOW32 + k) % LOW32), LOW32, c / LOW32, (c % LOW32 + k) % LOW32);
    NextModulo(c % LOW32 + k);
  }

  lemma NextModulo(x: nat)
    ensures (x % LOW32 + 1) % LOW32 == (x + 1) % LOW32
  {
  }

  function EncryptValue(f: Block -> Block, n: u128): u128
  {
    FromBlock(f(ToBlock(n)))
  }

  /** Byte i of the key stream from `counter` on. */
  function KeyByte(f: Block -> Block, counter: u128, i: nat): u8
  {
    f(ToBlock(CounterAt(counter, i / 16)))[i % 16]
  }

  lemma StreamBytes(f: Block -> Block, counter: u128, k: nat, at: nat, stream: Block)
    requires stream == f(ToBlock(CounterAt(counter, k))) && at == 16 * k
    ensures forall i :: at <= i < at + 16 ==> KeyByte(f, counter, i) == stream[i - at]
  {
    forall i | at <= i < at + 16 ensures KeyByte(f, counter, i) == stream[i - at] {
      assert i / 16 == k && i % 16 == i - at;
    }
  }

  function CtrXored(f: Block -> Block, counter: u128, data: seq<u8>): (r: seq<u8>)
    ensures |r| == |data|
  {
    seq(|data|, i requires 0 <= i < |data| => XorByte(data[i], KeyByte(f, counter, i)))
  }

  lemma CtrCancels(f: Block -> Block, counter: u128, data: seq<u8>)
    ensures CtrXored(f, counter, CtrXored(f, counter, data)) == data
  {
    var once := CtrXored(f, counter, data);
    forall i | 0 <= i < |data| ensures CtrXored(f, counter, once)[i] == data[i] {
      XorByteCancels(data[i], KeyByte(f, counter, i));
    }
  }

  /** Xors a block of the key stream into the data from one place to another. */
  method XorChunk(data: array<u8>, at: nat, end: nat, stream: Block)
    requires at <= end <= data.Length && end - at <= 16
    modifies data
    ensures forall i :: at <= i < end ==> data[i] == XorByte(old(data[i]), stream[i - at])
    ensures forall i :: 0 <= i < data.Length && !(at <= i < end) ==> data[i] == old(data[i])
  {
    for j := at to end
      invariant forall i :: at <= i < j ==> data[i] == XorByte(old(data[i]), stream[i - at])
      invariant forall i :: 0 <= i < data.Length && !(at <= i < j) ==> data[i] == old(data[i])
    {
      data[j] := XorByte(data[j], stream[j - at]);
    }
  }

  /** Xors the key stream into the data in place, block by block. */
  method Ctr(f: Block -> Block, start: u128, data: array<u8>)
    modifies data
    ensures data[..] == CtrXored(f, start, old(data[..]))
  {
    var at, counter := 0, start;
    ghost var k := 0;
    CounterNext(start, 0);
    while at < data.Length
      invariant (at == 16 * k && at <= data.Length) || at == data.Length
      invariant counter == CounterAt(start, k)
      invariant forall j :: 0 <= j < at ==> data[j] == XorByte(old(data[j]), KeyByte(f, start, j))
      invariant forall j :: at <= j < data.Length ==> data[j] == old(data[j])
    {
      BlockValue(f(ToBlock(counter)));
      var stream := ToBlock(EncryptValue(f, counter));
      var end := if data.Length - at < 16 then data.Length else at + 16;
      StreamBytes(f, start, k, at, stream);
      XorChunk(data, at, end, stream);
      CounterNext(start, k);
      counter := Increment(counter);
      at, k := end, k + 1;
    }
  }

  // ---- sealing and opening -----------------------------------------------------------------------

  const TAG: nat := 16

  /** The block function of a key, and the hash key it gives. */
  datatype Gcm = Gcm(f: Block -> Block, h: u128)

  function New(f: Block -> Block): Gcm
  {
    Gcm(f, EncryptValue(f, 0))
  }

  /** The counter a message starts from: the nonce and a one when it is twelve bytes,
      else the hash of the nonce and its length. */
  function FirstCounter(h: u128, nonce: seq<u8>): u128
  {
    if |nonce| == 12 then FromBlock(nonce + [0, 0, 0, 1])
    else Product(Xor128(Hashed(h, 0, Padded(nonce)), ((8 * |nonce|) % TWO128) as u128), h)
  }

  function TagOf(g: Gcm, first: u128, associated: seq<u8>, ciphertext: seq<u8>): Block
  {
    ToBlock(Xor128(EncryptValue(g.f, first), GhashOf(g.h, associated, ciphertext)))
  }

  function Sealed(g: Gcm, nonce: seq<u8>, associated: seq<u8>, plaintext: seq<u8>): seq<u8>
  {
    var first := FirstCounter(g.h, nonce);
    var ciphertext := CtrXored(g.f, Increment(first), plaintext);
    ciphertext + TagOf(g, first, associated, ciphertext)
  }

  /** The exclusive-or of a seal's tag bytes, or-ed together, is zero exactly when they
      are the same. */
  method SameTag(expected: seq<u8>, tag: seq<u8>) returns (ok: bool)
    requires |expected| == |tag|
    ensures ok <==> expected == tag
  {
    var difference: nat := 0;
    for i := 0 to |tag|
      invariant difference == 0 <==> expected[..i] == tag[..i]
    {
      OrZero(difference, XorByte(expected[i], tag[i]) as nat);
      XorZero(expected[i], tag[i]);
      assert expected[..i + 1] == expected[..i] + [expected[i]] && tag[..i + 1] == tag[..i] + [tag[i]];
      difference := Or(difference, XorByte(expected[i], tag[i]) as nat);
    }
    assert expected[..|tag|] == expected && tag[..|tag|] == tag;
    ok := difference == 0;
  }

  lemma {:induction false} OrZero(a: nat, b: nat)
    ensures Or(a, b) == 0 <==> a == 0 && b == 0
    decreases a + b
  {
    if a != 0 && b != 0 { OrZero(a / 2, b / 2); }
  }

  lemma XorZero(a: u8, b: u8)
    ensures XorByte(a, b) == 0 <==> a == b
  {
    XorByteCancels(a, b);
    XorByteLaws(a, b, b);
    XorByteLaws(b, 0, 0);
  }

  method NextCounter(g: Gcm, nonce: seq<u8>) returns (first: u128)
    ensures first == FirstCounter(g.h, nonce)
  {
    if |nonce| == 12 {
      return FromBlock(nonce + [0, 0, 0, 1]);
    }
    var state := GhashBlocks(g.h, 0, nonce);
    first := Multiply(Xor128(state, ((8 * |nonce|) % TWO128) as u128), g.h);
  }

  method Tag(g: Gcm, first: u128, associated: seq<u8>, ciphertext: seq<u8>) returns (tag: Block)
    ensures tag == TagOf(g, first, associated, ciphertext)
  {
    var hash := Ghash(g.h, associated, ciphertext);
    tag := ToBlock(Xor128(EncryptValue(g.f, first), hash));
  }

  method Copied(data: seq<u8>) returns (out: array<u8>)
    ensures fresh(out) && out[..] == data
  {
    out := new u8[|data|](i requires 0 <= i < |data| => data[i]);
  }

  method Seal(g: Gcm, nonce: seq<u8>, associated: seq<u8>, plaintext: seq<u8>) returns (r: seq<u8>)
    ensures r == Sealed(g, nonce, associated, plaintext)
  {
    var first := NextCounter(g, nonce);
    var out := Copied(plaintext);
    Ctr(g.f, Increment(first), out);
    var tag := Tag(g, first, associated, out[..]);
    r := out[..] + tag;
  }

  /** What the message decrypts to, when its tag is the ciphertext's. */
  function Opened(g: Gcm, nonce: seq<u8>, associated: seq<u8>, sealed: seq<u8>, tagLen: nat): Option<seq<u8>>
  {
    if tagLen < 4 || tagLen > TAG || |sealed| < tagLen then None
    else
      var n := |sealed| - tagLen;
      var first := FirstCounter(g.h, nonce);
      if TagOf(g, first, associated, sealed[..n])[..tagLen] == sealed[n..]
      then Some(CtrXored(g.f, Increment(first), sealed[..n])) else None
  }

  method OpenWithTag(g: Gcm, nonce: seq<u8>, associated: seq<u8>, sealed: seq<u8>, tagLen: nat) returns (r: Option<seq<u8>>)
    ensures r == Opened(g, nonce, associated, sealed, tagLen)
  {
    if tagLen < 4 || tagLen > TAG || |sealed| < tagLen {
      return None;
    }
    var n := |sealed| - tagLen;
    var ciphertext, tag := sealed[..n], sealed[n..];
    var first := NextCounter(g, nonce);
    var expected := Tag(g, first, associated, ciphertext);
    var same := SameTag(expected[..tagLen], tag);
    if !same {
      return None;
    }
    var out := Copied(ciphertext);
    Ctr(g.f, Increment(first), out);
    r := Some(out[..]);
  }

  /** A message opens to a plaintext exactly when it is that plaintext's sealing with the
      tag cut to its length. */
  lemma OpensExactly(g: Gcm, nonce: seq<u8>, associated: seq<u8>, sealed: seq<u8>, tagLen: nat, p: seq<u8>)
    ensures Opened(g, nonce, associated, sealed, tagLen) == Some(p) <==>
      4 <= tagLen <= TAG && |p| + tagLen == |sealed| && sealed == Sealed(g, nonce, associated, p)[..|sealed|]
  {
    if 4 <= tagLen <= TAG && |p| + tagLen == |sealed| {
      var first, c := FirstCounter(g.h, nonce), sealed[..|p|];
      var d := CtrXored(g.f, Increment(first), p);
      CtrCancels(g.f, Increment(first), p);
      CtrCancels(g.f, Increment(first), c);
      CutsApart(sealed, d, TagOf(g, first, associated, d), |p|);
    }
  }

  lemma CutsApart(sealed: seq<u8>, d: seq<u8>, tag: seq<u8>, n: nat)
    requires |d| == n <= |sealed| <= n + |tag|
    ensures sealed == (d + tag)[..|sealed|] <==> d == sealed[..n] && tag[..|sealed| - n] == sealed[n..]
  {
    assert (d + tag)[..|sealed|] == d + tag[..|sealed| - n];
    assert sealed == sealed[..n] + sealed[n..];
  }
}
