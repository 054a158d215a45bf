/** OCB over any block cipher (ocb.rs; RFC 7253). */
module Ocb {
  import opened Words
  import opened Bytes
  import opened Rijndael
  import opened Modes

  datatype Error = NonceLength(n: nat) | TagLength(n: nat) | TooShort | Forged

  datatype Result<+T> = Ok(value: T) | Err(error: Error)

  const ZERO: Block := [0, 0, 0, 0, 0, 0, 0, 0, 0, 0, 0, 0, 0, 0, 0, 0]

  // ---- doubling ----------------------------------------------------------------------------

  /** `(high << 1) | (low >> 7)`. */
  function DoubledByte(high: u8, low: u8): u8
  {
    ((2 * high as nat) % 256 + low as nat / 128) as u8
  }

  /** The bytes from i on, shifted left by one bit. */
  function ShiftedFrom(s: seq<u8>, i: nat): (r: seq<u8>)
    requires i <= |s|
    ensures |r| == |s| - i
    decreases |s| - i
  {
    if i == |s| then []
    else [DoubledByte(s[i], if i + 1 < |s| then s[i + 1] else 0)] + ShiftedFrom(s, i + 1)
  }

  /** The high bit of byte i, or none past the end. */
  function HighBit(s: seq<u8>, i: nat): nat
  {
    if i < |s| then s[i] as nat / 128 else 0
  }

  /** Shifting doubles the number the bytes state, but for the bit that moves out. */
  lemma {:induction false} ShiftDoubles(s: seq<u8>, i: nat)
    requires i <= |s|
    ensures 2 * BigEndian(s[i..]) == HighBit(s, i) * Pow2(8 * (|s| - i)) + BigEndian(ShiftedFrom(s, i))
    decreases |s| - i
  {
    if i < |s| {
      ShiftDoubles(s, i + 1);
      BigEndianHead(s[i..]);
      BigEndianHead(ShiftedFrom(s, i));
      assert s[i..][1..] == s[i + 1..] && ShiftedFrom(s, i)[1..] == ShiftedFrom(s, i + 1);
      Pow2Byte(|s| - i - 1);
      DoubledStep(s[i] as nat, Pow2(8 * (|s| - i - 1)), BigEndian(s[i + 1..]), HighBit(s, i + 1), BigEndian(ShiftedFrom(s, i + 1)));
    } else {
      assert s[i..] == [];
    }
  }

  lemma DoubledStep(x: nat, w: nat, rest: nat, carry: nat, shifted: nat)
    requires 2 * rest == carry * w + shifted && x < 256 && carry < 2
    ensures 2 * (rest + w * x) == (x / 128) * (256 * w) + (shifted + w * ((2 * x) % 256 + carry))
  {
    var h, l := x / 128, (2 * x) % 256;
    assert 2 * x == 256 * h + l;
    assert 2 * (w * x) == w * (256 * h + l);
    assert w * (256 * h + l) == h * (256 * w) + w * l;
    assert w * (l + carry) == w * l + carry * w;
  }

  /** Doubling in GF(2^128) (section 2 of RFC 7253), byte by byte. */
  function Double(block: Block): Block
  {
    var s := ShiftedFrom(block, 0);
    s[15 := XorByte(s[15], if block[0] >= 0x80 then 0x87 else 0)]
  }

  lemma CarriedOut(n: nat, h: nat, w: nat, t: nat)
    requires n == h * w + t && t < w && h < 2
    ensures n % w == t && (n >= w <==> h == 1)
  {
    ModUnique(n, w, h, t);
  }

  lemma ShiftedIs(s: seq<u8>, w: nat)
    requires s != [] && w == Pow2(8 * |s|)
    ensures BigEndian(ShiftedFrom(s, 0)) == (2 * BigEndian(s)) % w
    ensures 2 * BigEndian(s) >= w <==> HighBit(s, 0) == 1
  {
    ShiftDoubles(s, 0);
    Whole(s);
    BigEndianBound(ShiftedFrom(s, 0));
    CarriedOut(2 * BigEndian(s), HighBit(s, 0), w, BigEndian(ShiftedFrom(s, 0)));
  }

  lemma Whole<T>(s: seq<T>)
    ensures s[0..] == s
  {
  }

  /** Doubling is the shift of the 128 bits as one number, 0x87 xor-ed in for the bit
      that moves out. */
  lemma DoubleIs(block: Block)
    ensures var w := Pow2(8 * |block|);
      BigEndian(Double(block)) == Xor((2 * BigEndian(block)) % w, if 2 * BigEndian(block) >= w then 0x87 else 0)
  {
    ShiftedIs(block, Pow2(8 * |block|));
    LastDoubled(ShiftedFrom(block, 0), Double(block), if block[0] >= 0x80 then 0x87 else 0);
  }

  lemma LastDoubled(s: seq<u8>, d: seq<u8>, x: u8)
    requires |s| == |d| == 16 && d == s[15 := XorByte(s[15], x)]
    ensures BigEndian(d) == Xor(BigEndian(s), x as nat)
  {
    BigEndianLast(s);
    BigEndianLast(d);
    assert d[..15] == s[..15];
    LastXor(BigEndian(s[..15]), s[15], x);
  }

  /** A small number xor-ed into a number meets only its last byte. */
  lemma LastXor(high: nat, last: u8, x: u8)
    ensures Xor(256 * high + last as nat, x as nat) == 256 * high + XorByte(last, x) as nat
  {
    assert Pow2(8) == 256 by { Pow2Of64(); }
    XorParts(last as nat, x as nat, high, 0, 8);
  }

  // ---- the first offset ------------------------------------------------------------------------

  /** `(high << bits) | (low >> (8 - bits))`, and `high` when there is nothing to shift. */
  function Slid(high: u8, low: u8, bits: nat): u8
    requires bits < 8
  {
    SlidBound(high as nat, low as nat, bits);
    ((high as nat * Pow2(bits)) % 256 + low as nat / Pow2(8 - bits)) as u8
  }

  lemma SlidBound(h: nat, l: nat, bits: nat)
    requires bits < 8 && h < 256 && l < 256
    ensures Pow2(bits) * Pow2(8 - bits) == 256
    ensures (h * Pow2(bits)) % 256 + l / Pow2(8 - bits) < 256
    ensures (h * Pow2(bits) + l / Pow2(8 - bits)) % 256 == (h * Pow2(bits)) % 256 + l / Pow2(8 - bits)
    ensures (256 * h + l) / Pow2(8 - bits) == h * Pow2(bits) + l / Pow2(8 - bits)
    ensures l / Pow2(8 - bits) >= 0
  {
    assert Pow2(bits) * Pow2(8 - bits) == 256 by {
      Pow2Add(bits, 8 - bits);
      Pow2Of64();
    }
    SlidArithmetic(h, l, Pow2(bits), Pow2(8 - bits));
  }

  lemma SlidArithmetic(h: nat, l: nat, m: nat, n: nat)
    requires m > 0 && n > 0 && m * n == 256 && l < 256
    ensures (h * m) % 256 + l / n < 256
    ensures (h * m + l / n) % 256 == (h * m) % 256 + l / n
    ensures (256 * h + l) / n == h * m + l / n && l / n >= 0
  {
    QuotientRemainder(h, n);
    QuotientRemainder(l, n);
    var a, b, c := h / n, h % n, l / n;
    if c >= m { ProductBound(n, m, n, c); }
    assert h * m == 256 * a + b * m by { assert (n * a + b) * m == (m * n) * a + b * m; }
    ProductBound(b, m, n - 1, m);
    assert (n - 1) * m == 256 - m;
    ModUnique(h * m, 256, a, b * m);
    ModUnique(h * m + c, 256, a, b * m + c);
    assert n * (h * m + c) == 256 * h + n * c by { assert n * (h * m) == (m * n) * h; }
    ModUnique(256 * h + l, n, h * m + c, l % n);
  }

  /** Eight bits out of two bytes, from the given bit on. */
  lemma SlidBits(high: u8, low: u8, bits: nat)
    requires bits < 8
    ensures HighBits(Slid(high, low, bits) as nat, 8) == (HighBits(high as nat, 8) + HighBits(low as nat, 8))[bits..bits + 8]
  {
    SlidBound(high as nat, low as nat, bits);
    SlidNumber(high as nat, low as nat, bits, 8, Slid(high, low, bits) as nat);
  }

  lemma SlidNumber(high: nat, low: nat, bits: nat, byte: nat, slid: nat)
    requires byte == 8 && bits < byte && high < 256 && low < 256
    requires slid == ((256 * high + low) / Pow2(byte - bits)) % 256
    ensures HighBits(slid, byte) == (HighBits(high, byte) + HighBits(low, byte))[bits..bits + byte]
  {
    var v := 256 * high + low;
    BytesAppend(high, low, byte);
    NotNegative(v, Pow2(byte - bits));
    TopBits(v, byte, bits, v / Pow2(byte - bits));
    NotNegative(v / Pow2(byte - bits), 256);
    LastEight(HighBits(v, byte + byte), HighBits(v / Pow2(byte - bits) / 256, bits), HighBits(slid, byte), bits);
  }

  lemma BytesAppend(high: nat, low: nat, byte: nat)
    requires byte == 8 && low < 256
    ensures HighBits(high, byte) + HighBits(low, byte) == HighBits(256 * high + low, byte + byte)
  {
    assert Pow2(byte) == 256 by { Pow2Of64(); }
    HighAppend(high, low, byte, byte);
  }

  lemma TopBits(v: nat, byte: nat, bits: nat, q: nat)
    requires byte == 8 && bits < byte && q == v / Pow2(byte - bits)
    ensures q / 256 >= 0 && HighBits(v, byte + byte)[..byte + bits] == HighBits(q / 256, bits) + HighBits(q % 256, byte)
  {
    HighPrefix(v, byte + byte, byte + bits);
    QuotientRemainder(q, 256);
    NotNegative(q, 256);
    assert Pow2(byte) == 256 by { Pow2Of64(); }
    HighAppend(q / 256, q % 256, bits, byte);
  }

  lemma LastEight(all: seq<bool>, a: seq<bool>, b: seq<bool>, bits: nat)
    requires bits < 8 && |all| == 16 && |a| == bits && |b| == 8 && all[..8 + bits] == a + b
    ensures all[bits..bits + 8] == b
  {
    assert all[bits..bits + 8] == all[..8 + bits][bits..];
  }

  /** The bits of bytes, each byte's high bit first. */
  function StringBits(s: seq<u8>): (r: seq<bool>)
    ensures |r| == 8 * |s|
  {
    if s == [] then [] else HighBits(s[0] as nat, 8) + StringBits(s[1..])
  }

  lemma {:induction false} StringBitsAt(s: seq<u8>, i: nat)
    requires i < |s|
    ensures StringBits(s)[8 * i..8 * i + 8] == HighBits(s[i] as nat, 8)
  {
    if i > 0 {
      StringBitsAt(s[1..], i - 1);
      assert StringBits(s)[8 * i..8 * i + 8] == StringBits(s[1..])[8 * (i - 1)..8 * (i - 1) + 8];
    }
  }

  lemma StringBitsTwo(s: seq<u8>, i: nat)
    requires i + 1 < |s|
    ensures StringBits(s)[8 * i..8 * i + 16] == HighBits(s[i] as nat, 8) + HighBits(s[i + 1] as nat, 8)
  {
    StringBitsAt(s, i);
    StringBitsAt(s, i + 1);
    Halved(StringBits(s), 8 * i, 8 * i + 8, 8 * i + 16);
  }

  lemma Halved<T>(s: seq<T>, a: nat, b: nat, c: nat)
    requires a <= b <= c <= |s|
    ensures s[a..c] == s[a..b] + s[b..c]
  {
  }

  lemma {:induction false} SameBits(x: seq<bool>, y: seq<bool>, n: nat)
    requires |x| == |y| == 8 * n && forall i {:trigger x[8 * i..8 * i + 8]} :: 0 <= i < n ==> x[8 * i..8 * i + 8] == y[8 * i..8 * i + 8]
    ensures x == y
  {
    forall k | 0 <= k < 8 * n ensures x[k] == y[k] {
      var i := k / 8;
      assert x[8 * i..8 * i + 8][k % 8] == x[k] && y[8 * i..8 * i + 8][k % 8] == y[k];
    }
  }

  /** The nonce as a block: the tag length, zeros, a one bit, the nonce. */
  function NonceBlock(tagLen: nat, nonce: seq<u8>): Block
    requires 1 <= |nonce| <= 15
  {
    var first := (2 * ((8 * tagLen) % 128)) as u8;
    if |nonce| == 15 then [first + 1] + nonce
    else [first] + seq(14 - |nonce|, i => 0) + [1] + nonce
  }

  /** The encrypted top of the nonce and its bytes xor-ed with their neighbours. */
  function Stretch(ktop: Block): (r: seq<u8>)
    ensures |r| == 24
  {
    var k: seq<u8> := ktop;
    k + seq(8, i requires 0 <= i < 8 => XorByte(ktop[i], ktop[i + 1]))
  }

  /** The sixteen bytes that start `bottom` bits into the stretch. */
  function Slide(stretch: seq<u8>, bottom: nat): Block
    requires |stretch| == 24 && bottom < 64
  {
    var (bytes, bits) := (bottom / 8, bottom % 8);
    SlidFrom(stretch[bytes..bytes + 17], bits)
  }

  /** Every byte of the string but the last, slid into the next. */
  function SlidFrom(s: seq<u8>, bits: nat): (r: seq<u8>)
    requires s != [] && bits < 8
    ensures |r| == |s| - 1
  {
    if |s| == 1 then [] else [Slid(s[0], s[1], bits)] + SlidFrom(s[1..], bits)
  }

  lemma {:induction false} SlidFromAt(s: seq<u8>, bits: nat, i: nat)
    requires i + 1 < |s| && bits < 8
    ensures SlidFrom(s, bits)[i] == Slid(s[i], s[i + 1], bits)
  {
    if i > 0 { SlidFromAt(s[1..], bits, i - 1); }
  }

  /** As bit strings, the first offset is bits bottom + 1 to bottom + 128 of the stretch
      (section 4.2 of RFC 7253). */
  lemma SlideIs(stretch: seq<u8>, bottom: nat)
    requires |stretch| == 24 && bottom < 64
    ensures StringBits(Slide(stretch, bottom)) == StringBits(stretch)[bottom..bottom + 128]
  {
    var x, y := StringBits(Slide(stretch, bottom)), StringBits(stretch)[bottom..bottom + 128];
    forall i {:trigger x[8 * i..8 * i + 8]} | 0 <= i < 16 ensures x[8 * i..8 * i + 8] == y[8 * i..8 * i + 8] {
      SlidFromAt(stretch[bottom / 8..bottom / 8 + 17], bottom % 8, i);
      StringBitsAt(Slide(stretch, bottom), i);
      StringBitsTwo(stretch, i + bottom / 8);
      SlidBits(stretch[i + bottom / 8], stretch[i + bottom / 8 + 1], bottom % 8);
      Window(StringBits(stretch), 8 * (i + bottom / 8), bottom % 8, bottom, i);
    }
    SameBits(x, y, 16);
  }

  lemma Window<T>(s: seq<T>, at: nat, bits: nat, bottom: nat, i: nat)
    requires i < 16 && bottom < 64 && at + bits == 8 * i + bottom && bits < 8 && at + 16 <= |s| == 192
    ensures s[at..at + 16][bits..bits + 8] == s[bottom..bottom + 128][8 * i..8 * i + 8]
  {
    SubSlice(s, at, at + 16, bits, bits + 8);
    SubSlice(s, bottom, bottom + 128, 8 * i, 8 * i + 8);
  }

  lemma SubSlice<T>(s: seq<T>, a: nat, b: nat, c: nat, d: nat)
    requires a <= b <= |s| && c <= d <= b - a
    ensures s[a..b][c..d] == s[a + c..a + d]
  {
    var x, y := s[a..b][c..d], s[a + c..a + d];
    assert |x| == |y| && forall k :: 0 <= k < |x| ==> x[k] == y[k];
  }

  function FirstOffset(encrypt: Block -> Block, tagLen: nat, nonce: seq<u8>): Block
    requires 1 <= |nonce| <= 15
  {
    var block := NonceBlock(tagLen, nonce);
    var bottom := block[15] as nat % 64;
    Slide(Stretch(encrypt(block[15 := block[15] - bottom as u8])), bottom)
  }

  // ---- the table of doublings --------------------------------------------------------------------

  function Ntz(i: nat): nat
    requires i > 0
  {
    if i % 2 == 1 then 0 else 1 + Ntz(i / 2)
  }

  lemma {:induction false} NtzBound(i: nat, k: nat)
    requires 0 < i < Pow2(k)
    ensures Ntz(i) < k
  {
    if i % 2 == 0 { NtzBound(i / 2, k - 1); }
  }

  function Doubled(b: Block, n: nat): Block
  {
    if n == 0 then b else Double(Doubled(b, n - 1))
  }

  /** The cipher, the key's constants L_*, L_$ and L_0 to L_31, and the tag's length. */
  datatype Ocb = Ocb(cipher: Cipher, lStar: Block, lDollar: Block, l: seq<Block>, tagLen: nat)

  predicate Ready(o: Ocb)
  {
    && o.lStar == o.cipher.encrypt(ZERO) && o.lDollar == Doubled(o.lStar, 1)
    && |o.l| == 32 && (forall i {:trigger o.l[i]} :: 0 <= i < 32 ==> o.l[i] == Doubled(o.lStar, i + 2))
    && o.tagLen in {8, 12, 16}
  }

  method New(cipher: Cipher, tagLen: nat) returns (r: Result<Ocb>)
    ensures r.Ok? <==> tagLen in {8, 12, 16}
    ensures r.Ok? ==> Ready(r.value) && r.value.cipher == cipher && r.value.tagLen == tagLen
    ensures r.Err? ==> r.error == TagLength(tagLen)
  {
    if tagLen !in {8, 12, 16} {
      return Err(TagLength(tagLen));
    }
    var lStar := cipher.encrypt(ZERO);
    var lDollar := Double(lStar);
    assert Doubled(lStar, 1) == lDollar;
    var l := [Double(lDollar)];
    for i := 1 to 32
      invariant |l| == i && forall j {:trigger l[j]} :: 0 <= j < i ==> l[j] == Doubled(lStar, j + 2)
    {
      l := l + [Double(l[i - 1])];
    }
    r := Ok(Ocb(cipher, lStar, lDollar, l, tagLen));
  }

  // ---- whole blocks -------------------------------------------------------------------------------

  /** L_{ntz(i)}; the table has one for every i below 2^32. */
  function LAt(o: Ocb, i: nat): Block
  {
    if i > 0 && Ntz(i) < |o.l| then o.l[Ntz(i)] else ZERO
  }

  /** The offset of block i, counting from one. */
  function Offset(o: Ocb, first: Block, i: nat): Block
  {
    if i == 0 then first else XorBlocks(Offset(o, first, i - 1), LAt(o, i))
  }

  lemma Below32(i: nat)
    requires 0 < i < 0x1_0000_0000
    ensures Ntz(i) < 32
  {
    assert i < Pow2(32) by { Pow2Of64(); }
    NtzBound(i, 32);
  }

  function BlockOf(data: seq<u8>, i: nat): Block
    requires 16 * i + 16 <= |data|
  {
    data[16 * i..16 * i + 16]
  }

  /** The first n blocks, block i mapped by f(i + 1, .). */
  function MapBlocks(f: (nat, Block) -> Block, data: seq<u8>, n: nat): (r: seq<u8>)
    requires 16 * n <= |data|
    ensures |r| == 16 * n
    decreases n
  {
    if n == 0 then [] else MapBlocks(f, data, n - 1) + f(n, BlockOf(data, n - 1))
  }

  /** Mapping back what was mapped. */
  lemma {:induction false} MapsBack(f: (nat, Block) -> Block, g: (nat, Block) -> Block, data: seq<u8>, rest: seq<u8>, n: nat)
    requires 16 * n <= |data| && forall i, b {:trigger f(i, b)} :: 1 <= i <= n ==> g(i, f(i, b)) == b
    ensures MapBlocks(g, MapBlocks(f, data, n) + rest, n) == data[..16 * n]
    decreases n
  {
    if n > 0 {
      var last: seq<u8> := f(n, BlockOf(data, n - 1));
      var done := MapBlocks(f, data, n - 1);
      MapsBack(f, g, data, last + rest, n - 1);
      assert done + last + rest == done + (last + rest);
      assert BlockOf(done + last + rest, n - 1) == last;
      assert data[..16 * n] == data[..16 * (n - 1)] + data[16 * (n - 1)..16 * n];
    }
  }

  function Masked(o: Ocb, first: Block, f: Block -> Block): (nat, Block) -> Block
  {
    (i: nat, b: Block) => XorBlocks(f(XorBlocks(b, Offset(o, first, i))), Offset(o, first, i))
  }

  lemma MaskedInverse(o: Ocb, first: Block, i: nat, b: Block)
    requires Inverse(o.cipher)
    ensures Masked(o, first, o.cipher.decrypt)(i, Masked(o, first, o.cipher.encrypt)(i, b)) == b
    ensures Masked(o, first, o.cipher.encrypt)(i, Masked(o, first, o.cipher.decrypt)(i, b)) == b
  {
    var x := Offset(o, first, i);
    XorBlocksCancel(o.cipher.encrypt(XorBlocks(b, x)), x);
    XorBlocksCancel(o.cipher.decrypt(XorBlocks(b, x)), x);
    XorBlocksCancel(b, x);
    assert InverseAt(o.cipher, XorBlocks(b, x));
  }

  /** The exclusive-or of the first n blocks. */
  function Checksum(data: seq<u8>, n: nat): Block
    requires 16 * n <= |data|
  {
    if n == 0 then ZERO else XorBlocks(Checksum(data, n - 1), BlockOf(data, n - 1))
  }

  // ---- whole messages ---------------------------------------------------------------------------------

  /** What is left past the whole blocks, padded with a one bit. */
  function PaddedRest(rest: seq<u8>): Block
    requires |rest| < 16
  {
    rest + [0x80] + seq(15 - |rest|, i => 0)
  }

  function Whole16(data: seq<u8>): (n: nat)
    ensures 16 * n <= |data| < 16 * n + 16
  {
    |data| / 16
  }

  /** As many blocks as the table of doublings is good for. */
  predicate Numbered(data: seq<u8>)
  {
    |data| / 16 < 0x1_0000_0000
  }

  /** The offset at the end of the data. */
  function LastOffset(o: Ocb, first: Block, data: seq<u8>): Block
  {
    var x := Offset(o, first, Whole16(data));
    if |data| % 16 == 0 then x else XorBlocks(x, o.lStar)
  }

  /** Every whole block under f between its offsets; the rest under the pad of the last
      offset. */
  function Crypted(o: Ocb, first: Block, f: Block -> Block, data: seq<u8>): (r: seq<u8>)
    ensures |r| == |data|
  {
    var n := Whole16(data);
    MapBlocks(Masked(o, first, f), data, n)
      + XorWith(data[16 * n..], o.cipher.encrypt(LastOffset(o, first, data)))
  }

  function FullChecksum(plaintext: seq<u8>): Block
  {
    var n := Whole16(plaintext);
    if |plaintext| % 16 == 0 then Checksum(plaintext, n)
    else XorBlocks(Checksum(plaintext, n), PaddedRest(plaintext[16 * n..]))
  }

  /** The sum of the encrypted blocks of the associated data. */
  function HashBlocks(o: Ocb, data: seq<u8>, n: nat): Block
    requires 16 * n <= |data|
  {
    if n == 0 then ZERO
    else XorBlocks(HashBlocks(o, data, n - 1), o.cipher.encrypt(XorBlocks(BlockOf(data, n - 1), Offset(o, ZERO, n))))
  }

  function HashOf(o: Ocb, associated: seq<u8>): Block
  {
    var n := Whole16(associated);
    var sum := HashBlocks(o, associated, n);
    if |associated| % 16 == 0 then sum
    else
      XorBlocks(sum, o.cipher.encrypt(XorBlocks(PaddedRest(associated[16 * n..]), LastOffset(o, ZERO, associated))))
  }

  function TagOf(o: Ocb, first: Block, associated: seq<u8>, plaintext: seq<u8>): Block
  {
    XorBlocks(
      o.cipher.encrypt(XorBlocks(XorBlocks(FullChecksum(plaintext), LastOffset(o, first, plaintext)), o.lDollar)),
      HashOf(o, associated))
  }

  /** Decryption undoes encryption, and the other way round, at every length. */
  lemma CryptedInverse(o: Ocb, first: Block, data: seq<u8>)
    requires Inverse(o.cipher)
    ensures Crypted(o, first, o.cipher.decrypt, Crypted(o, first, o.cipher.encrypt, data)) == data
    ensures Crypted(o, first, o.cipher.encrypt, Crypted(o, first, o.cipher.decrypt, data)) == data
  {
    forall i, b ensures Masked(o, first, o.cipher.decrypt)(i, Masked(o, first, o.cipher.encrypt)(i, b)) == b {
      MaskedInverse(o, first, i, b);
    }
    forall i, b ensures Masked(o, first, o.cipher.encrypt)(i, Masked(o, first, o.cipher.decrypt)(i, b)) == b {
      MaskedInverse(o, first, i, b);
    }
    CryptsBack(o, first, o.cipher.encrypt, o.cipher.decrypt, data);
    CryptsBack(o, first, o.cipher.decrypt, o.cipher.encrypt, data);
  }

  lemma CryptsBack(o: Ocb, first: Block, f: Block -> Block, g: Block -> Block, data: seq<u8>)
    requires forall i, b {:trigger Masked(o, first, f)(i, b)} :: Masked(o, first, g)(i, Masked(o, first, f)(i, b)) == b
    ensures Crypted(o, first, g, Crypted(o, first, f, data)) == data
  {
    PartsBack(Masked(o, first, f), Masked(o, first, g), data, o.cipher.encrypt(LastOffset(o, first, data)), Whole16(data));
  }

  lemma PartsBack(f: (nat, Block) -> Block, g: (nat, Block) -> Block, data: seq<u8>, pad: Block, n: nat)
    requires 16 * n <= |data| < 16 * n + 16 && forall i, b {:trigger f(i, b)} :: g(i, f(i, b)) == b
    ensures var sealed := MapBlocks(f, data, n) + XorWith(data[16 * n..], pad);
      |sealed| == |data| && MapBlocks(g, sealed, n) + XorWith(sealed[16 * n..], pad) == data
  {
    var blocks := MapBlocks(f, data, n);
    var rest := XorWith(data[16 * n..], pad);
    MapsBack(f, g, data, rest, n);
    XorWithCancels(data[16 * n..], pad);
    assert (blocks + rest)[|blocks|..] == rest;
    Rejoined(data, 16 * n);
  }

  lemma Rejoined(data: seq<u8>, m: nat)
    requires m <= |data|
    ensures data[..m] + data[m..] == data
  {
  }

  // ---- sealing and opening -----------------------------------------------------------------------

  function Sealed(o: Ocb, nonce: seq<u8>, associated: seq<u8>, plaintext: seq<u8>): Result<seq<u8>>
    requires o.tagLen <= 16
  {
    if nonce == [] || |nonce| > 15 then Err(NonceLength(|nonce|))
    else
      var first := FirstOffset(o.cipher.encrypt, o.tagLen, nonce);
      Ok(Crypted(o, first, o.cipher.encrypt, plaintext) + TagOf(o, first, associated, plaintext)[..o.tagLen])
  }

  function Opened(o: Ocb, nonce: seq<u8>, associated: seq<u8>, sealed: seq<u8>): Result<seq<u8>>
    requires o.tagLen <= 16
  {
    if |sealed| < o.tagLen then Err(TooShort)
    else if nonce == [] || |nonce| > 15 then Err(NonceLength(|nonce|))
    else OpenedFrom(o, FirstOffset(o.cipher.encrypt, o.tagLen, nonce), associated, sealed)
  }

  function OpenedFrom(o: Ocb, first: Block, associated: seq<u8>, sealed: seq<u8>): Result<seq<u8>>
    requires o.tagLen <= 16 && o.tagLen <= |sealed|
  {
    var n := |sealed| - o.tagLen;
    var plaintext := Crypted(o, first, o.cipher.decrypt, sealed[..n]);
    if TagOf(o, first, associated, plaintext)[..o.tagLen] == sealed[n..] then Ok(plaintext) else Err(Forged)
  }

  /** A message opens to a plaintext exactly when sealing that plaintext gives the
      message. */
  lemma OpensExactly(o: Ocb, nonce: seq<u8>, associated: seq<u8>, sealed: seq<u8>, plaintext: seq<u8>)
    requires Inverse(o.cipher) && o.tagLen <= 16
    ensures Opened(o, nonce, associated, sealed) == Ok(plaintext) <==> Sealed(o, nonce, associated, plaintext) == Ok(sealed)
  {
    if nonce != [] && |nonce| <= 15 {
      var first := FirstOffset(o.cipher.encrypt, o.tagLen, nonce);
      if |sealed| >= o.tagLen {
        var n := |sealed| - o.tagLen;
        assert sealed == sealed[..n] + sealed[n..];
        CryptedInverse(o, first, sealed[..n]);
      }
      var c, t := Crypted(o, first, o.cipher.encrypt, plaintext), TagOf(o, first, associated, plaintext)[..o.tagLen];
      assert (c + t)[..|c|] == c && (c + t)[|c|..] == t;
      CryptedInverse(o, first, plaintext);
    }
  }

  method L(o: Ocb, i: nat) returns (r: Block)
    requires Ready(o) && 0 < i < 0x1_0000_0000
    ensures r == LAt(o, i)
  {
    Below32(i);
    r := o.l[Ntz(i)];
  }

  method InitialOffset(o: Ocb, nonce: seq<u8>) returns (r: Result<Block>)
    ensures r == if nonce == [] || |nonce| > 15 then Err(NonceLength(|nonce|))
                 else Ok(FirstOffset(o.cipher.encrypt, o.tagLen, nonce))
  {
    if nonce == [] || |nonce| > 15 {
      return Err(NonceLength(|nonce|));
    }
    var block := NonceBlock(o.tagLen, nonce);
    var bottom := block[15] as nat % 64;
    block := block[15 := block[15] - bottom as u8];
    var stretch := Stretch(o.cipher.encrypt(block));
    r := Ok(Slide(stretch, bottom));
  }

  method Hash(o: Ocb, associated: seq<u8>) returns (sum: Block)
    requires Ready(o) && Numbered(associated)
    ensures sum == HashOf(o, associated)
  {
    sum := ZERO;
    var offset := ZERO;
    var n := |associated| / 16;
    for i := 0 to n
      invariant offset == Offset(o, ZERO, i) && sum == HashBlocks(o, associated, i)
    {
      var l := L(o, i + 1);
      offset := XorBlocks(offset, l);
      sum := XorBlocks(sum, o.cipher.encrypt(XorBlocks(BlockOf(associated, i), offset)));
    }
    if |associated| % 16 != 0 {
      offset := XorBlocks(offset, o.lStar);
      sum := XorBlocks(sum, o.cipher.encrypt(XorBlocks(PaddedRest(associated[16 * n..]), offset)));
    }
  }

  /** Block i + 1 between its offsets. */
  function Between(f: Block -> Block, block: Block, offset: Block): Block
  {
    XorBlocks(f(XorBlocks(block, offset)), offset)
  }

  lemma MapNext(o: Ocb, first: Block, f: Block -> Block, data: seq<u8>, i: nat, offset: Block, done: seq<u8>)
    requires 16 * i + 16 <= |data| && offset == Offset(o, first, i + 1)
    requires done == MapBlocks(Masked(o, first, f), data, i)
    ensures MapBlocks(Masked(o, first, f), data, i + 1) == done + Between(f, BlockOf(data, i), offset)
  {
    assert Masked(o, first, f)(i + 1, BlockOf(data, i)) == Between(f, BlockOf(data, i), offset);
  }

  method NextOffset(o: Ocb, ghost first: Block, i: nat, offset: Block) returns (r: Block)
    requires Ready(o) && i + 1 < 0x1_0000_0000 && offset == Offset(o, first, i)
    ensures r == Offset(o, first, i + 1)
  {
    var l := L(o, i + 1);
    r := XorBlocks(offset, l);
  }

  /** The whole blocks, encrypted, with the offset and the checksum they end at. */
  method SealBlocks(o: Ocb, first: Block, plaintext: seq<u8>, n: nat) returns (out: seq<u8>, offset: Block, checksum: Block)
    requires Ready(o) && Numbered(plaintext) && n == |plaintext| / 16
    ensures out == MapBlocks(Masked(o, first, o.cipher.encrypt), plaintext, n)
    ensures offset == Offset(o, first, n) && checksum == Checksum(plaintext, n)
  {
    out, offset, checksum := [], first, ZERO;
    for i := 0 to n
      invariant out == MapBlocks(Masked(o, first, o.cipher.encrypt), plaintext, i)
      invariant offset == Offset(o, first, i) && checksum == Checksum(plaintext, i)
    {
      offset := NextOffset(o, first, i, offset);
      var block := BlockOf(plaintext, i);
      checksum := XorBlocks(checksum, block);
      MapNext(o, first, o.cipher.encrypt, plaintext, i, offset, out);
      out := out + Between(o.cipher.encrypt, block, offset);
    }
  }

  /** The whole blocks, decrypted, with the offset and the checksum they end at. */
  method OpenBlocks(o: Ocb, first: Block, ciphertext: seq<u8>, n: nat) returns (out: seq<u8>, offset: Block, checksum: Block)
    requires Ready(o) && Numbered(ciphertext) && n == |ciphertext| / 16
    ensures out == MapBlocks(Masked(o, first, o.cipher.decrypt), ciphertext, n)
    ensures offset == Offset(o, first, n) && checksum == Checksum(out, n)
  {
    out, offset, checksum := [], first, ZERO;
    for i := 0 to n
      invariant out == MapBlocks(Masked(o, first, o.cipher.decrypt), ciphertext, i)
      invariant offset == Offset(o, first, i) && checksum == Checksum(out, i)
    {
      offset := NextOffset(o, first, i, offset);
      MapNext(o, first, o.cipher.decrypt, ciphertext, i, offset, out);
      var block := Between(o.cipher.decrypt, BlockOf(ciphertext, i), offset);
      ChecksumGrows(out, block, i);
      checksum := XorBlocks(checksum, block);
      out := out + block;
    }
  }

  lemma {:induction false} ChecksumPrefix(data: seq<u8>, more: seq<u8>, n: nat)
    requires 16 * n <= |data|
    ensures Checksum(data + more, n) == Checksum(data, n)
  {
    if n > 0 {
      ChecksumPrefix(data, more, n - 1);
      assert BlockOf(data + more, n - 1) == BlockOf(data, n - 1);
    }
  }

  lemma ChecksumGrows(data: seq<u8>, block: Block, n: nat)
    requires |data| == 16 * n
    ensures var b: seq<u8> := block; Checksum(data + b, n + 1) == XorBlocks(Checksum(data, n), block)
  {
    var b: seq<u8> := block;
    ChecksumPrefix(data, b, n);
    assert BlockOf(data + b, n) == block;
  }

  method Tag(o: Ocb, first: Block, associated: seq<u8>, offset: Block, checksum: Block, ghost plaintext: seq<u8>) returns (tag: Block)
    requires Ready(o) && Numbered(associated)
    requires offset == LastOffset(o, first, plaintext) && checksum == FullChecksum(plaintext)
    ensures tag == TagOf(o, first, associated, plaintext)
  {
    tag := XorBlocks(XorBlocks(checksum, offset), o.lDollar);
    var h := Hash(o, associated);
    tag := XorBlocks(o.cipher.encrypt(tag), h);
  }

  /** The ciphertext, and the offset and the checksum at its end. */
  method Encipher(o: Ocb, first: Block, plaintext: seq<u8>) returns (out: seq<u8>, offset: Block, checksum: Block)
    requires Ready(o) && Numbered(plaintext)
    ensures out == Crypted(o, first, o.cipher.encrypt, plaintext)
    ensures offset == LastOffset(o, first, plaintext) && checksum == FullChecksum(plaintext)
  {
    var n := |plaintext| / 16;
    out, offset, checksum := SealBlocks(o, first, plaintext, n);
    var rest := plaintext[16 * n..];
    if rest != [] {
      offset := XorBlocks(offset, o.lStar);
      out := out + XorWith(rest, o.cipher.encrypt(offset));
      checksum := XorBlocks(checksum, PaddedRest(rest));
    }
  }

  /** The plaintext, and the offset and the checksum at its end. */
  method Decipher(o: Ocb, first: Block, ciphertext: seq<u8>) returns (out: seq<u8>, offset: Block, checksum: Block)
    requires Ready(o) && Numbered(ciphertext)
    ensures out == Crypted(o, first, o.cipher.decrypt, ciphertext)
    ensures offset == LastOffset(o, first, out) && checksum == FullChecksum(out)
  {
    var n := |ciphertext| / 16;
    out, offset, checksum := OpenBlocks(o, first, ciphertext, n);
    var rest := ciphertext[16 * n..];
    if rest != [] {
      offset := XorBlocks(offset, o.lStar);
      var last := XorWith(rest, o.cipher.encrypt(offset));
      ChecksumPrefix(out, last, n);
      assert (out + last)[16 * n..] == last;
      checksum := XorBlocks(checksum, PaddedRest(last));
      out := out + last;
    }
  }

  method Seal(o: Ocb, nonce: seq<u8>, associated: seq<u8>, plaintext: seq<u8>) returns (r: Result<seq<u8>>)
    requires Ready(o) && Numbered(associated) && Numbered(plaintext)
    ensures r == Sealed(o, nonce, associated, plaintext)
  {
    var first := InitialOffset(o, nonce);
    if first.Err? {
      return Err(first.error);
    }
    var out, offset, checksum := Encipher(o, first.value, plaintext);
    var tag := Tag(o, first.value, associated, offset, checksum, plaintext);
    r := Ok(out + tag[..o.tagLen]);
  }

  /** The plaintext, and the tag it should have. */
  method DecipherTagged(o: Ocb, first: Block, associated: seq<u8>, ciphertext: seq<u8>) returns (out: seq<u8>, tag: Block)
    requires Ready(o) && Numbered(associated) && Numbered(ciphertext)
    ensures out == Crypted(o, first, o.cipher.decrypt, ciphertext) && tag == TagOf(o, first, associated, out)
  {
    var offset, checksum;
    out, offset, checksum := Decipher(o, first, ciphertext);
    tag := Tag(o, first, associated, offset, checksum, out);
  }

  /** The plaintext when the tag verifies. */
  method OpenFrom(o: Ocb, first: Block, associated: seq<u8>, sealed: seq<u8>) returns (r: Result<seq<u8>>)
    requires Ready(o) && Numbered(associated) && Numbered(sealed) && o.tagLen <= |sealed|
    ensures r == OpenedFrom(o, first, associated, sealed)
  {
    var n := |sealed| - o.tagLen;
    var out, expected := DecipherTagged(o, first, associated, sealed[..n]);
    r := if expected[..o.tagLen] == sealed[n..] then Ok(out) else Err(Forged);
  }

  method Open(o: Ocb, nonce: seq<u8>, associated: seq<u8>, sealed: seq<u8>) returns (r: Result<seq<u8>>)
    requires Ready(o) && Numbered(associated) && Numbered(sealed)
    ensures r == Opened(o, nonce, associated, sealed)
  {
    if |sealed| < o.tagLen {
      return Err(TooShort);
    }
    var first := InitialOffset(o, nonce);
    if first.Err? {
      return Err(first.error);
    }
    r := OpenFrom(o, first.value, associated, sealed);
  }
}
