/** Poly1305 in 26-bit limbs (chacha.rs), against the integer definition of
    section 2.5 of RFC 8439. */
module Poly1305 {
  import opened Words
  import opened Bytes

  // ---- the definition ---------------------------------------------------------

  const PRIME: int := 0x3_ffff_ffff_ffff_ffff_ffff_ffff_ffff_fffb

  /** A block with the one byte appended: its integer plus 2^(8 length). */
  function BlockValue(block: seq<u8>): nat
  {
    Little(block) + Pow2(8 * |block|)
  }

  /** The accumulator after the message, block of 16 by block. */
  function Accumulate(r: nat, acc: nat, message: seq<u8>): nat
    decreases |message|
  {
    if message == [] then acc
    else
      var n := if |message| < 16 then |message| else 16;
      Accumulate(r, ((acc + BlockValue(message[..n])) * r) % PRIME, message[n..])
  }

  /** r clamped: the top four bits of bytes 3, 7, 11 and 15 and the bottom two of
      bytes 4, 8 and 12 are cleared. */
  function Clamp(bytes: seq<u8>): (r: seq<u8>)
    requires |bytes| == 16
    ensures |r| == 16
  {
    seq(16, i requires 0 <= i < 16 =>
      if i in {3, 7, 11, 15} then bytes[i] % 16
      else if i in {4, 8, 12} then bytes[i] / 4 * 4
      else bytes[i])
  }

  function Tag(key: seq<u8>, message: seq<u8>): seq<u8>
    requires |key| == 32
  {
    LittleBytes(Accumulate(Little(Clamp(key[..16])), 0, message) + Little(key[16..]), 16)
  }

  // ---- limbs ------------------------------------------------------------------

  const B26: int := 0x400_0000
  const B52: int := B26 * B26
  const B78: int := B52 * B26
  const B104: int := B78 * B26

  lemma LimbsSpanPrime()
    ensures B104 * B26 == PRIME + 5
  {
  }

  function Weigh(a: int, b: int, c: int, d: int, e: int): int
  {
    a + B26 * b + B52 * c + B78 * d + B104 * e
  }

  datatype Limbs = Limbs(l0: u32, l1: u32, l2: u32, l3: u32, l4: u32)
  {
    function Value(): nat
    {
      Weigh(l0 as int, l1 as int, l2 as int, l3 as int, l4 as int)
    }
  }

  /** What the clamp leaves of r. */
  predicate Clamped(r: Limbs)
  {
    r.l0 < 0x400_0000 && r.l1 < 0x400_0000 && r.l2 < 0x400_0000 && r.l3 < 0x400_0000 && r.l4 < 0x10_0000
  }

  /** What one round leaves of h: limb 1 holds a small carry. */
  predicate Settled(h: Limbs)
  {
    h.l0 < 0x400_0000 && h.l1 < 0x400_0040 && h.l2 < 0x400_0000 && h.l3 < 0x400_0000 && h.l4 < 0x400_0000
  }

  lemma AddMultiple(x: int, k: int)
    ensures (x + k * PRIME) % PRIME == x % PRIME
  {
    ModUnique(x + k * PRIME, PRIME, x / PRIME + k, x % PRIME);
  }

  function Word(s: seq<u8>): (w: u32)
    requires |s| >= 4
    ensures w as int == s[0] as int + 256 * s[1] as int + 0x1_0000 * s[2] as int + 0x100_0000 * s[3] as int
  {
    s[0] as u32 + 0x100 * s[1] as u32 + 0x1_0000 * s[2] as u32 + 0x100_0000 * s[3] as u32
  }

  // ---- one block: h := (h + block) r mod 2^130 - 5, partially reduced -----------

  /** A product of a limb of h and a limb of r, or of 5 r: no 64-bit overflow. */
  function Wide(a: u64, b: u64): (p: u64)
    requires a < 0x800_0080 && b < 0x1400_0000
    ensures p as int == a as int * b as int
    ensures p < 0xa0_000a_0000_0000
    ensures b < 0x400_0000 ==> p < 0x20_0002_0000_0000
    ensures b < 0x10_0000 ==> p < 0x8000_8000_0000
  {
    WideBounds(a as int, b as int);
    a * b
  }

  lemma WideBounds(a: int, b: int)
    requires 0 <= a < 0x800_0080 && 0 <= b < 0x1400_0000
    ensures 0 <= a * b < 0xa0_000a_0000_0000
    ensures b < 0x400_0000 ==> a * b < 0x20_0002_0000_0000
    ensures b < 0x10_0000 ==> a * b < 0x8000_8000_0000
  {
    if b < 0x10_0000 { ProductBound(a, b, 0x800_007f, 0xf_ffff); }
    else if b < 0x400_0000 { ProductBound(a, b, 0x800_007f, 0x3ff_ffff); }
    else { ProductBound(a, b, 0x800_007f, 0x13ff_ffff); }
  }

  function Wide5(a: u64, s: u64, ghost r: int): (p: u64)
    requires a < 0x800_0080 && s < 0x1400_0000 && s as int == 5 * r
    ensures p as int == 5 * (a as int * r)
    ensures p < 0xa0_000a_0000_0000
  {
    assert a as int * (5 * r) == 5 * (a as int * r);
    Wide(a, s)
  }

  lemma Spread(x: int, b: seq<int>)
    requires |b| == 5
    ensures x * Row(b) == Row(Scaled(x, b))
  {
    assert x * (B26 * b[1]) == B26 * (x * b[1]);
    assert x * (B52 * b[2]) == B52 * (x * b[2]);
    assert x * (B78 * b[3]) == B78 * (x * b[3]);
    assert x * (B104 * b[4]) == B104 * (x * b[4]);
  }

  function Row(p: seq<int>): int
    requires |p| == 5
  {
    Weigh(p[0], p[1], p[2], p[3], p[4])
  }

  function Scaled(x: int, b: seq<int>): (r: seq<int>)
    requires |b| == 5
    ensures |r| == 5
  {
    [x * b[0], x * b[1], x * b[2], x * b[3], x * b[4]]
  }

  lemma FoldRows(p: seq<seq<int>>) returns (k: int)
    requires |p| == 5 && forall i :: 0 <= i < 5 ==> |p[i]| == 5
    ensures Weigh(Row(p[0]), Row(p[1]), Row(p[2]), Row(p[3]), Row(p[4])) ==
            Weigh(p[0][0] + 5 * (p[1][4] + p[2][3] + p[3][2] + p[4][1]),
                  p[0][1] + p[1][0] + 5 * (p[2][4] + p[3][3] + p[4][2]),
                  p[0][2] + p[1][1] + p[2][0] + 5 * (p[3][4] + p[4][3]),
                  p[0][3] + p[1][2] + p[2][1] + p[3][0] + 5 * p[4][4],
                  p[0][4] + p[1][3] + p[2][2] + p[3][1] + p[4][0]) + k * PRIME
  {
    k := Weigh(p[1][4] + p[2][3] + p[3][2] + p[4][1], p[2][4] + p[3][3] + p[4][2],
               p[3][4] + p[4][3], p[4][4], 0);
    LimbsSpanPrime();
  }

  lemma ColumnsAreProduct(u: seq<int>, v: seq<int>, t: seq<int>)
    requires |u| == 5 && |v| == 5 && |t| == 5
    requires t[0] == u[0]*v[0] + 5*(u[1]*v[4]) + 5*(u[2]*v[3]) + 5*(u[3]*v[2]) + 5*(u[4]*v[1])
    requires t[1] == u[0]*v[1] + u[1]*v[0] + 5*(u[2]*v[4]) + 5*(u[3]*v[3]) + 5*(u[4]*v[2])
    requires t[2] == u[0]*v[2] + u[1]*v[1] + u[2]*v[0] + 5*(u[3]*v[4]) + 5*(u[4]*v[3])
    requires t[3] == u[0]*v[3] + u[1]*v[2] + u[2]*v[1] + u[3]*v[0] + 5*(u[4]*v[4])
    requires t[4] == u[0]*v[4] + u[1]*v[3] + u[2]*v[2] + u[3]*v[1] + u[4]*v[0]
    ensures Row(t) % PRIME == (Row(u) * Row(v)) % PRIME
  {
    var w := Row(v);
    forall i | 0 <= i < 5 ensures Row(Scaled(u[i], v)) == w * u[i] { Spread(u[i], v); }
    Spread(w, u);
    var k := FoldRows([Scaled(u[0], v), Scaled(u[1], v), Scaled(u[2], v), Scaled(u[3], v), Scaled(u[4], v)]);
    assert Row(u) * Row(v) == Row(t) + k * PRIME;
    AddMultiple(Row(t), k);
  }

  /** The column sums of the product of h and r. */
  method Columns(h: Limbs, r: Limbs) returns (d0: u64, d1: u64, d2: u64, d3: u64, d4: u64)
    requires Clamped(r)
    requires h.l0 < 0x800_0080 && h.l1 < 0x800_0080 && h.l2 < 0x800_0080 && h.l3 < 0x800_0080 && h.l4 < 0x800_0080
    ensures d0 < 0x330_0000_0000_0000 && d1 < 0x330_0000_0000_0000 && d2 < 0x330_0000_0000_0000
    ensures d3 < 0x330_0000_0000_0000 && d4 < 0x81_0000_0000_0000
    ensures Weigh(d0 as int, d1 as int, d2 as int, d3 as int, d4 as int) % PRIME == (h.Value() * r.Value()) % PRIME
  {
    var s1, s2, s3, s4 := (r.l1 * 5) as u64, (r.l2 * 5) as u64, (r.l3 * 5) as u64, (r.l4 * 5) as u64;
    var h0, h1, h2, h3, h4 := h.l0 as u64, h.l1 as u64, h.l2 as u64, h.l3 as u64, h.l4 as u64;
    var r0, r1, r2, r3, r4 := r.l0 as u64, r.l1 as u64, r.l2 as u64, r.l3 as u64, r.l4 as u64;
    ghost var v := [r0 as int, r1 as int, r2 as int, r3 as int, r4 as int];
    d0 := Wide(h0, r0) + Wide5(h1, s4, v[4]) + Wide5(h2, s3, v[3]) + Wide5(h3, s2, v[2]) + Wide5(h4, s1, v[1]);
    d1 := Wide(h0, r1) + Wide(h1, r0) + Wide5(h2, s4, v[4]) + Wide5(h3, s3, v[3]) + Wide5(h4, s2, v[2]);
    d2 := Wide(h0, r2) + Wide(h1, r1) + Wide(h2, r0) + Wide5(h3, s4, v[4]) + Wide5(h4, s3, v[3]);
    d3 := Wide(h0, r3) + Wide(h1, r2) + Wide(h2, r1) + Wide(h3, r0) + Wide5(h4, s4, v[4]);
    d4 := Wide(h0, r4) + Wide(h1, r3) + Wide(h2, r2) + Wide(h3, r1) + Wide(h4, r0);
    ColumnsAreProduct([h0 as int, h1 as int, h2 as int, h3 as int, h4 as int], v,
                      [d0 as int, d1 as int, d2 as int, d3 as int, d4 as int]);
  }

  /** The carry chain of one round; the last carry times 5 does not overflow. */
  method CarryColumns(c0: u64, c1: u64, c2: u64, c3: u64, c4: u64) returns (h: Limbs)
    requires c0 < 0x330_0000_0000_0000 && c1 < 0x330_0000_0000_0000 && c2 < 0x330_0000_0000_0000
    requires c3 < 0x330_0000_0000_0000 && c4 < 0x81_0000_0000_0000
    ensures Settled(h)
    ensures h.Value() % PRIME == Weigh(c0 as int, c1 as int, c2 as int, c3 as int, c4 as int) % PRIME
  {
    var carry := c0 / 0x400_0000;
    var h0 := (c0 % 0x400_0000) as u32;
    var d1 := c1 + carry;
    carry := d1 / 0x400_0000;
    var h1 := (d1 % 0x400_0000) as u32;
    var d2 := c2 + carry;
    carry := d2 / 0x400_0000;
    var h2 := (d2 % 0x400_0000) as u32;
    var d3 := c3 + carry;
    carry := d3 / 0x400_0000;
    var h3 := (d3 % 0x400_0000) as u32;
    var d4 := c4 + carry;
    carry := d4 / 0x400_0000;
    var h4 := (d4 % 0x400_0000) as u32;
    h0 := h0 + carry as u32 * 5;
    var c := h0 / 0x400_0000;
    h0 := h0 % 0x400_0000;
    h1 := h1 + c;
    h := Limbs(h0, h1, h2, h3, h4);
    assert Weigh(c0 as int, c1 as int, c2 as int, c3 as int, c4 as int) == h.Value() + carry as int * PRIME by {
      LimbsSpanPrime();
    }
    AddMultiple(h.Value(), carry as int);
  }

  // ---- blocks and the key as limbs ----------------------------------------------

  function Limb0(s: seq<u8>): (l: u32)
    requires |s| >= 4
    ensures l as int == s[0] as int + 0x100 * s[1] as int + 0x1_0000 * s[2] as int + 0x100_0000 * (s[3] as int % 4) < B26
  {
    Word(s) % 0x400_0000
  }

  function Limb1(s: seq<u8>): (l: u32)
    requires |s| >= 4
    ensures l as int == s[0] as int / 4 + 0x40 * s[1] as int + 0x4000 * s[2] as int + 0x40_0000 * (s[3] as int % 16) < B26
  {
    Word(s) / 4 % 0x400_0000
  }

  function Limb2(s: seq<u8>): (l: u32)
    requires |s| >= 4
    ensures l as int == s[0] as int / 16 + 0x10 * s[1] as int + 0x1000 * s[2] as int + 0x10_0000 * (s[3] as int % 64) < B26
  {
    Word(s) / 16 % 0x400_0000
  }

  function Limb3(s: seq<u8>): (l: u32)
    requires |s| >= 4
    ensures l as int == s[0] as int / 64 + 4 * s[1] as int + 0x400 * s[2] as int + 0x4_0000 * s[3] as int < B26
  {
    Word(s) / 64 % 0x400_0000
  }

  function Limb4(s: seq<u8>): (l: u32)
    requires |s| >= 4
    ensures l as int == s[1] as int + 0x100 * s[2] as int + 0x1_0000 * s[3] as int < 0x100_0000
  {
    Word(s) / 256
  }

  /** Sixteen bytes and a seventeenth regrouped in limbs: bytes 3, 6 and 9 are
      split between two limbs. */
  lemma Regroup(b: seq<int>, lo3: int, hi3: int, lo6: int, hi6: int, lo9: int, hi9: int)
    requires |b| == 17 && b[3] == lo3 + 4 * hi3 && b[6] == lo6 + 16 * hi6 && b[9] == lo9 + 64 * hi9
    ensures Weigh(b[0] + 0x100 * b[1] + 0x1_0000 * b[2] + 0x100_0000 * lo3,
                  hi3 + 0x40 * b[4] + 0x4000 * b[5] + 0x40_0000 * lo6,
                  hi6 + 0x10 * b[7] + 0x1000 * b[8] + 0x10_0000 * lo9,
                  hi9 + 4 * b[10] + 0x400 * b[11] + 0x4_0000 * b[12],
                  b[13] + 0x100 * b[14] + 0x1_0000 * b[15] + 0x100_0000 * b[16])
         == b[0] + 0x100 * b[1] + 0x1_0000 * b[2] + 0x100_0000 * b[3]
            + 0x1_0000_0000 * (b[4] + 0x100 * b[5] + 0x1_0000 * b[6] + 0x100_0000 * b[7]
            + 0x1_0000_0000 * (b[8] + 0x100 * b[9] + 0x1_0000 * b[10] + 0x100_0000 * b[11]
            + 0x1_0000_0000 * (b[12] + 0x100 * b[13] + 0x1_0000 * b[14] + 0x100_0000 * b[15]
            + 0x1_0000_0000 * b[16])))
  {
  }

  function Ints(s: seq<u8>): (r: seq<int>)
    ensures |r| == |s| && forall i :: 0 <= i < |s| ==> r[i] == s[i] as int
  {
    seq(|s|, i requires 0 <= i < |s| => s[i] as int)
  }

  /** The 26-bit limbs of seventeen bytes. */
  method BlockLimbs(block: seq<u8>) returns (l: Limbs)
    requires |block| == 17 && block[16] <= 1
    ensures l.l0 < 0x400_0000 && l.l1 < 0x400_0000 && l.l2 < 0x400_0000 && l.l3 < 0x400_0000 && l.l4 < 0x200_0000
    ensures l.Value() == Little(block)
  {
    l := Limbs(Limb0(block), Limb1(block[3..]), Limb2(block[6..]), Limb3(block[9..]),
               Limb4(block[12..]) + block[16] as u32 * 0x100_0000);
    Little16(block);
    assert Little(block[16..]) == block[16] as int + 256 * Little(block[16..][1..]);
    var b := Ints(block);
    Regroup(b, b[3] % 4, b[3] / 4, b[6] % 16, b[6] / 16, b[9] % 64, b[9] / 64);
  }

  /** The seventeen bytes of a block: the message bytes, a one, and zeros. */
  function PadBlock(chunk: seq<u8>): (r: seq<u8>)
    requires 0 < |chunk| <= 16
    ensures |r| == 17 && r[16] <= 1
  {
    chunk + [1] + seq(16 - |chunk|, i => 0)
  }

  lemma PadBlockValue(chunk: seq<u8>)
    requires 0 < |chunk| <= 16
    ensures Little(PadBlock(chunk)) == BlockValue(chunk)
  {
    var zeros := seq<u8>(16 - |chunk|, i => 0);
    LittleZeros(16 - |chunk|);
    assert PadBlock(chunk) == chunk + ([1] + zeros);
    LittleAppend(chunk, [1] + zeros);
    assert ([1] + zeros)[1..] == zeros;
    assert Little([1] + zeros) == 1;
  }

  function Masked1(s: seq<u8>): (l: u32)
    requires |s| >= 4
    ensures l as int == s[0] as int / 4 % 4 + 0x40 * (s[1] as int / 4 * 4) + 0x4000 * s[2] as int
                        + 0x40_0000 * (s[3] as int % 16) < B26
  {
    var w := Limb1(s);
    ModUnique(w as int, 4, (w as int - s[0] as int / 4) / 4 + s[0] as int / 4 / 4, s[0] as int / 4 % 4);
    ModUnique(w as int, 0x100, s[1] as int / 4 + 0x40 * s[2] as int + 0x4000 * (s[3] as int % 16),
              s[0] as int / 4 + 0x40 * (s[1] as int % 4));
    w % 4 + w / 0x100 % 0x4_0000 * 0x100
  }

  function Masked2(s: seq<u8>): (l: u32)
    requires |s| >= 4
    ensures l as int == s[0] as int / 16 + 0x10 * (s[1] as int % 16) + 0x1000 * (s[2] as int / 4 * 4)
                        + 0x10_0000 * (s[3] as int % 64) < B26
  {
    var w := Limb2(s);
    ModUnique(w as int, 0x100, s[1] as int / 16 + 0x10 * s[2] as int + 0x1000 * (s[3] as int % 64),
              s[0] as int / 16 + 0x10 * (s[1] as int % 16));
    ModUnique(w as int, 0x4000, s[2] as int / 4 + 0x40 * (s[3] as int % 64),
              s[0] as int / 16 + 0x10 * s[1] as int + 0x1000 * (s[2] as int % 4));
    w % 0x100 + w / 0x4000 % 0x1000 * 0x4000
  }

  function Masked3(s: seq<u8>): (l: u32)
    requires |s| >= 4
    ensures l as int == s[0] as int / 64 + 4 * s[1] as int + 0x400 * (s[2] as int % 16)
                        + 0x4_0000 * (s[3] as int / 4 * 4) < B26
  {
    var w := Limb3(s);
    ModUnique(w as int, 0x4000, s[2] as int / 16 + 0x10 * s[3] as int, s[0] as int / 64 + 4 * s[1] as int + 0x400 * (s[2] as int % 16));
    ModUnique(w as int, 0x10_0000, s[3] as int / 4, s[0] as int / 64 + 4 * s[1] as int + 0x400 * s[2] as int + 0x4_0000 * (s[3] as int % 4));
    w % 0x4000 + w / 0x10_0000 % 0x40 * 0x10_0000
  }

  function Masked4(s: seq<u8>): (l: u32)
    requires |s| >= 4
    ensures l as int == s[1] as int + 0x100 * s[2] as int + 0x1_0000 * (s[3] as int % 16) < 0x10_0000
  {
    Limb4(s) % 0x10_0000
  }

  /** The limbs of r, clamped as they are read. */
  method ClampedLimbs(key: seq<u8>) returns (r: Limbs)
    requires |key| == 16
    ensures Clamped(r) && r.Value() == Little(Clamp(key))
  {
    r := Limbs(Limb0(key), Masked1(key[3..]), Masked2(key[6..]), Masked3(key[9..]), Masked4(key[12..]));
    ClampValue(key);
  }

  lemma ClampValue(key: seq<u8>)
    requires |key| == 16
    ensures Little(Clamp(key)) ==
      Weigh(key[0] as int + 0x100 * key[1] as int + 0x1_0000 * key[2] as int + 0x100_0000 * (key[3] as int % 4),
            key[3] as int / 4 % 4 + 0x40 * (key[4] as int / 4 * 4) + 0x4000 * key[5] as int + 0x40_0000 * (key[6] as int % 16),
            key[6] as int / 16 + 0x10 * (key[7] as int % 16) + 0x1000 * (key[8] as int / 4 * 4) + 0x10_0000 * (key[9] as int % 64),
            key[9] as int / 64 + 4 * key[10] as int + 0x400 * (key[11] as int % 16) + 0x4_0000 * (key[12] as int / 4 * 4),
            key[13] as int + 0x100 * key[14] as int + 0x1_0000 * (key[15] as int % 16))
  {
    var k := Ints(key);
    var b := [k[0], k[1], k[2], k[3] % 16, k[4] / 4 * 4, k[5], k[6], k[7] % 16, k[8] / 4 * 4, k[9], k[10], k[11] % 16,
              k[12] / 4 * 4, k[13], k[14], k[15] % 16, 0];
    assert k[3] % 16 == k[3] % 4 + 4 * (k[3] / 4 % 4);
    Regroup(b, k[3] % 4, k[3] / 4 % 4, k[6] % 16, k[6] / 16, k[9] % 64, k[9] / 64);
    ClampedBytes(key, b);
  }

  lemma ClampedBytes(key: seq<u8>, b: seq<int>)
    requires |key| == 16 && |b| == 17 && b[16] == 0
    requires forall i :: 0 <= i < 16 ==> Clamp(key)[i] as int == b[i]
    ensures Little(Clamp(key)) == b[0] + 0x100 * b[1] + 0x1_0000 * b[2] + 0x100_0000 * b[3]
          + 0x1_0000_0000 * (b[4] + 0x100 * b[5] + 0x1_0000 * b[6] + 0x100_0000 * b[7]
          + 0x1_0000_0000 * (b[8] + 0x100 * b[9] + 0x1_0000 * b[10] + 0x100_0000 * b[11]
          + 0x1_0000_0000 * (b[12] + 0x100 * b[13] + 0x1_0000 * b[14] + 0x100_0000 * b[15]
          + 0x1_0000_0000 * b[16])))
  {
    Little16(Clamp(key));
    assert Little(Clamp(key)[16..]) == 0;
  }

  // ---- the rounds -----------------------------------------------------------------

  method Round(h: Limbs, r: Limbs, chunk: seq<u8>) returns (k: Limbs)
    requires Settled(h) && Clamped(r) && 0 < |chunk| <= 16
    ensures Settled(k)
    ensures k.Value() % PRIME == ((h.Value() + BlockValue(chunk)) * r.Value()) % PRIME
  {
    var b := BlockLimbs(PadBlock(chunk));
    PadBlockValue(chunk);
    var sum := Limbs(h.l0 + b.l0, h.l1 + b.l1, h.l2 + b.l2, h.l3 + b.l3, h.l4 + b.l4);
    assert sum.Value() == h.Value() + b.Value();
    var d0, d1, d2, d3, d4 := Columns(sum, r);
    k := CarryColumns(d0, d1, d2, d3, d4);
  }

  lemma ReduceFirst(h: int, b: int, r: int)
    ensures ((h % PRIME + b) * r) % PRIME == ((h + b) * r) % PRIME
  {
    var q := h / PRIME;
    assert h + b == q * PRIME + (h % PRIME + b);
    assert (h + b) * r == (q * PRIME) * r + (h % PRIME + b) * r;
    assert (q * PRIME) * r == (q * r) * PRIME;
    AddMultiple((h % PRIME + b) * r, q * r);
  }

  method Rounds(r: Limbs, message: seq<u8>) returns (h: Limbs)
    requires Clamped(r)
    ensures Settled(h) && h.Value() % PRIME == Accumulate(r.Value(), 0, message)
  {
    h := Limbs(0, 0, 0, 0, 0);
    var rest := message;
    while rest != []
      invariant Settled(h)
      invariant Accumulate(r.Value(), h.Value() % PRIME, rest) == Accumulate(r.Value(), 0, message)
      decreases |rest|
    {
      var n := if |rest| < 16 then |rest| else 16;
      ReduceFirst(h.Value(), BlockValue(rest[..n]), r.Value());
      h := Round(h, r, rest[..n]);
      rest := rest[n..];
    }
  }

  // ---- the end: full carry, h or h - p, and the sum with the second half of the key ----

  predicate Full(h: Limbs)
  {
    h.l0 < 0x400_0000 && h.l1 < 0x400_0000 && h.l2 < 0x400_0000 && h.l3 < 0x400_0000 && h.l4 < 0x400_0000
  }

  /** One carry pass from limb 1 around to limb 1 leaves every limb below 2^26:
      when the top limb carries, limb 1 had been emptied. */
  method FullCarry(h: Limbs) returns (k: Limbs)
    requires Settled(h)
    ensures Full(k) && k.Value() % PRIME == h.Value() % PRIME
  {
    var Limbs(h0, h1, h2, h3, h4) := h;
    var c := h1 / 0x400_0000;
    h1 := h1 % 0x400_0000;
    h2 := h2 + c;
    c := h2 / 0x400_0000;
    h2 := h2 % 0x400_0000;
    h3 := h3 + c;
    c := h3 / 0x400_0000;
    h3 := h3 % 0x400_0000;
    h4 := h4 + c;
    c := h4 / 0x400_0000;
    h4 := h4 % 0x400_0000;
    h0 := h0 + c * 5;
    ghost var top := c;
    c := h0 / 0x400_0000;
    h0 := h0 % 0x400_0000;
    h1 := h1 + c;
    k := Limbs(h0, h1, h2, h3, h4);
    assert h.Value() == k.Value() + top as int * PRIME by { LimbsSpanPrime(); }
    AddMultiple(k.Value(), top as int);
  }

  /** The four low limbs of h + 5, its top limb before 2^26 is taken off, and
      the full sum. */
  method PlusFive(h: Limbs) returns (g: Limbs, top: u32)
    requires Full(h)
    ensures g.l0 < 0x400_0000 && g.l1 < 0x400_0000 && g.l2 < 0x400_0000 && g.l3 < 0x400_0000 && top <= 0x400_0000
    ensures Weigh(g.l0 as int, g.l1 as int, g.l2 as int, g.l3 as int, top as int) == h.Value() + 5
    ensures g.l4 as int == (top as int - 0x400_0000) % 0x1_0000_0000
  {
    var g0 := h.l0 + 5;
    var g1 := h.l1 + g0 / 0x400_0000;
    var g2 := h.l2 + g1 / 0x400_0000;
    var g3 := h.l3 + g2 / 0x400_0000;
    top := h.l4 + g3 / 0x400_0000;
    g := Limbs(g0 % 0x400_0000, g1 % 0x400_0000, g2 % 0x400_0000, g3 % 0x400_0000,
               ((top as int - 0x400_0000) % 0x1_0000_0000) as u32);
  }

  /** The carry out of h + 5 says whether h is at least p, and what is left below it is h - p. */
  lemma FivePastPrime(h: Limbs, g: Limbs, top: u32)
    requires Full(h) && g.l0 < 0x400_0000 && g.l1 < 0x400_0000 && g.l2 < 0x400_0000 && g.l3 < 0x400_0000 && top <= 0x400_0000
    requires Weigh(g.l0 as int, g.l1 as int, g.l2 as int, g.l3 as int, top as int) == h.Value() + 5
    ensures top == 0x400_0000 <==> h.Value() >= PRIME
    ensures top == 0x400_0000 ==> Weigh(g.l0 as int, g.l1 as int, g.l2 as int, g.l3 as int, 0) == h.Value() - PRIME < PRIME
  {
    LimbsSpanPrime();
  }

  /** The true remainder, chosen between h and h - p by the sign bit of h - p. */
  method Freeze(h: Limbs) returns (k: Limbs)
    requires Full(h)
    ensures Full(k) && k.Value() == h.Value() % PRIME
  {
    var g, top := PlusFive(h);
    var sign := g.l4 / 0x8000_0000;
    var mask := ((sign as int - 1) % 0x1_0000_0000) as u32;
    FivePastPrime(h, g, top);
    assert sign == if top == 0x400_0000 then 0 else 1;
    k := Limbs(Choose32(h.l0, g.l0, mask), Choose32(h.l1, g.l1, mask), Choose32(h.l2, g.l2, mask),
               Choose32(h.l3, g.l3, mask), Choose32(h.l4, g.l4, mask));
    ModUnique(h.Value(), PRIME, if top == 0x400_0000 then 1 else 0, k.Value());
  }

  /** The low 128 bits of five limbs, as four 32-bit words. */
  method Pack(h: Limbs) returns (w: seq<u32>)
    requires Full(h)
    ensures |w| == 4
    ensures w[0] as int == h.l0 as int + h.l1 as int % 0x40 * B26
    ensures w[1] as int == h.l1 as int / 0x40 + h.l2 as int % 0x1000 * 0x10_0000
    ensures w[2] as int == h.l2 as int / 0x1000 + h.l3 as int % 0x4_0000 * 0x4000
    ensures w[3] as int == h.l3 as int / 0x4_0000 + h.l4 as int % 0x100_0000 * 0x100
  {
    Splits32();
    w := [Joined32(h.l0 as nat, h.l1 as nat, 0x400_0000, 0x40),
          Joined32((h.l1 / 0x40) as nat, h.l2 as nat, 0x10_0000, 0x1000),
          Joined32((h.l2 / 0x1000) as nat, h.l3 as nat, 0x4000, 0x4_0000),
          Joined32((h.l3 / 0x4_0000) as nat, h.l4 as nat, 0x100, 0x100_0000)];
  }

  const B32: int := 0x1_0000_0000

  function Quad(w: seq<int>): int
    requires |w| == 4
  {
    w[0] + B32 * (w[1] + B32 * (w[2] + B32 * w[3]))
  }

  lemma PackValue(h0: int, h1: int, h2: int, h3: int, h4: int)
    requires 0 <= h1 < B26 && 0 <= h2 < B26 && 0 <= h3 < B26 && 0 <= h4 < B26
    ensures Weigh(h0, h1, h2, h3, h4) ==
            Quad([h0 + h1 % 0x40 * B26, h1 / 0x40 + h2 % 0x1000 * 0x10_0000,
                  h2 / 0x1000 + h3 % 0x4_0000 * 0x4000, h3 / 0x4_0000 + h4 % 0x100_0000 * 0x100])
            + B32 * (B32 * (B32 * (B32 * (h4 / 0x100_0000))))
  {
  }

  /** The sum with s modulo 2^128, word by word with the carry in f. */
  method AddKey(h: seq<u32>, s: seq<u32>) returns (t: seq<u32>, ghost carry: int)
    requires |h| == 4 && |s| == 4
    ensures |t| == 4
    ensures Quad([h[0] as int, h[1] as int, h[2] as int, h[3] as int])
            + Quad([s[0] as int, s[1] as int, s[2] as int, s[3] as int])
            == Quad([t[0] as int, t[1] as int, t[2] as int, t[3] as int]) + B32 * (B32 * (B32 * (B32 * carry)))
  {
    var f: u64 := h[0] as u64 + s[0] as u64;
    var t0 := (f % 0x1_0000_0000) as u32;
    f := h[1] as u64 + s[1] as u64 + f / 0x1_0000_0000;
    var t1 := (f % 0x1_0000_0000) as u32;
    f := h[2] as u64 + s[2] as u64 + f / 0x1_0000_0000;
    var t2 := (f % 0x1_0000_0000) as u32;
    f := h[3] as u64 + s[3] as u64 + f / 0x1_0000_0000;
    var t3 := (f % 0x1_0000_0000) as u32;
    t := [t0, t1, t2, t3];
    carry := (f / 0x1_0000_0000) as int;
  }

  function FourBytes(w: u32): seq<u8>
  {
    LittleBytes(w as nat, 4)
  }

  lemma QuadBytes(t: seq<u32>)
    requires |t| == 4
    ensures Little(FourBytes(t[0]) + FourBytes(t[1]) + FourBytes(t[2]) + FourBytes(t[3]))
            == Quad([t[0] as int, t[1] as int, t[2] as int, t[3] as int])
  {
    var a, b, c, d := FourBytes(t[0]), FourBytes(t[1]), FourBytes(t[2]), FourBytes(t[3]);
    FourBytesValue(t[0]);
    FourBytesValue(t[1]);
    FourBytesValue(t[2]);
    FourBytesValue(t[3]);
    assert a + b + c + d == a + (b + (c + d));
    AppendFour(a, b + (c + d));
    AppendFour(b, c + d);
    AppendFour(c, d);
  }

  lemma FourBytesValue(w: u32)
    ensures Little(FourBytes(w)) == w as int
  {
    LittleRoundTrip(w as nat, 4);
    Pow2Of64();
    assert 8 * 4 == 32;
  }

  lemma AppendFour(a: seq<u8>, b: seq<u8>)
    requires |a| == 4
    ensures Little(a + b) == Little(a) + B32 * Little(b)
  {
    LittleAppend(a, b);
    Pow2Of64();
  }

  lemma KeyWords(s: seq<u8>)
    requires |s| == 16
    ensures Quad([Word(s) as int, Word(s[4..]) as int, Word(s[8..]) as int, Word(s[12..]) as int]) == Little(s)
  {
    Little16(s);
    assert Little(s[16..]) == 0;
  }

  /** The limb computation gives the tag of the definition for every key and message. */
  method Compute(key: seq<u8>, message: seq<u8>) returns (tag: seq<u8>)
    requires |key| == 32
    ensures tag == Tag(key, message) && |tag| == 16
  {
    var r := ClampedLimbs(key[..16]);
    var h := Rounds(r, message);
    h := FullCarry(h);
    h := Freeze(h);
    tag := AddedKey(h, key[16..]);
  }

  /** The low 128 bits of the accumulator plus s. */
  method AddedKey(h: Limbs, s: seq<u8>) returns (tag: seq<u8>)
    requires Full(h) && |s| == 16
    ensures |tag| == 16 && tag == LittleBytes(h.Value() + Little(s), 16)
  {
    var w := Pack(h);
    PackValue(h.l0 as int, h.l1 as int, h.l2 as int, h.l3 as int, h.l4 as int);
    var k := [Word(s), Word(s[4..]), Word(s[8..]), Word(s[12..])];
    KeyWords(s);
    var t;
    ghost var carry;
    t, carry := AddKey(w, k);
    tag := FourBytes(t[0]) + FourBytes(t[1]) + FourBytes(t[2]) + FourBytes(t[3]);
    QuadBytes(t);
    LowBits(tag, h.Value() + Little(s), carry + h.l4 as int / 0x100_0000);
  }

  lemma LowBits(tag: seq<u8>, n: nat, k: int)
    requires |tag| == 16 && n == Little(tag) + B32 * (B32 * (B32 * (B32 * k)))
    ensures tag == LittleBytes(n, 16)
  {
    LittleBound(tag);
    assert Pow2(128) == B32 * B32 * B32 * B32 by { Pow2Of64(); Pow2Known(64, TWO64, 64, TWO64); }
    ModUnique(n, Pow2(128), k, Little(tag));
    LittleBytesModulo(n, 16);
    WrittenOnce(tag, Little(tag));
  }
}
