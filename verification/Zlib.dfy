/** Adler-32 and the zlib wrapper around a deflate stream (inflate.rs; RFC 1950). */
module Zlib {
  import opened Options
  import opened Words
  import opened Bytes
  import opened Huffman
  import Deflate
  import opened Inflate

  const BASE: u32 := 65_521

  /** Both sums of section 8.2 of RFC 1950, each reduced at every byte. */
  function Sums(data: seq<u8>): (r: (nat, nat))
    ensures r.0 < 65_521 && r.1 < 65_521
  {
    if data == [] then (1, 0)
    else
      var s := Sums(data[..|data| - 1]);
      var a := (s.0 + data[|data| - 1] as nat) % 65_521;
      (a, (s.1 + a) % 65_521)
  }

  function Adler(data: seq<u8>): nat
  {
    65_536 * Sums(data).1 + Sums(data).0
  }

  /** Twice the sum of 1..k. */
  lemma Triangle(k: nat)
    requires k <= 5552
    ensures k * (k + 1) <= 5552 * 5553
    ensures k * (k + 1) + 2 * (k + 1) == (k + 1) * (k + 2)
  {
    ProductBound(k, k + 1, 5552, 5553);
  }

  /** Sums as they grow over a chunk are congruent to the reduced ones. */
  lemma SumsStep(data: seq<u8>, n: nat, a: nat, b: nat)
    requires n < |data| && a % 65_521 == Sums(data[..n]).0 && b % 65_521 == Sums(data[..n]).1
    ensures (a + data[n] as nat) % 65_521 == Sums(data[..n + 1]).0
    ensures (b + (a + data[n] as nat)) % 65_521 == Sums(data[..n + 1]).1
  {
    assert data[..n + 1][..n] == data[..n];
    SumModulo(a, data[n] as nat);
    SumModulo(b, a + data[n] as nat);
    SumModulo((a + data[n] as nat), b % 65_521);
  }

  lemma SumModulo(x: nat, y: nat)
    ensures (x % 65_521 + y) % 65_521 == (x + y) % 65_521
    ensures (x % 65_521 + y % 65_521) % 65_521 == (x + y) % 65_521
  {
  }

  /** How large the sums can be after k bytes that were not reduced. */
  predicate Within(a: nat, b: nat, k: nat)
  {
    a <= 65_520 + 255 * k && 2 * b <= 2 * 65_520 * (k + 1) + 255 * (k * (k + 1))
  }

  lemma StaysWithin(a: nat, b: nat, k: nat, x: nat)
    requires Within(a, b, k) && k < 5552 && x < 256
    ensures Within(a + x, b + (a + x), k + 1) && a + x < 0x1_0000_0000 && b + (a + x) < 0x1_0000_0000
  {
    Triangle(k);
    Triangle(k + 1);
  }

  /** A chunk of at most 5552 bytes: no sum reaches 2^32 before it is reduced. */
  method Chunk(data: seq<u8>, start: nat, end: nat, a0: u32, b0: u32) returns (a: u32, b: u32)
    requires start <= end <= |data| && end - start <= 5552 && a0 < BASE && b0 < BASE
    requires (a0 as nat, b0 as nat) == Sums(data[..start])
    ensures a < BASE && b < BASE && (a as nat, b as nat) == Sums(data[..end])
  {
    a, b := a0, b0;
    for i := start to end
      invariant Within(a as nat, b as nat, i - start)
      invariant a as nat % 65_521 == Sums(data[..i]).0 && b as nat % 65_521 == Sums(data[..i]).1
    {
      StaysWithin(a as nat, b as nat, i - start, data[i] as nat);
      SumsStep(data, i, a as nat, b as nat);
      a := a + data[i] as u32;
      b := b + a;
    }
    a := a % BASE;
    b := b % BASE;
  }

  /** The sums are below 2^16, so or-ing them together adds them. */
  function BothSums(a: u32, b: u32): (r: u32)
    requires a < BASE && b < BASE
    ensures r as nat == 65_536 * b as nat + a as nat
  {
    HalfWord();
    ShlOr(a as nat, b as nat, 16, 32) as u32
  }

  lemma HalfWord()
    ensures Pow2(16) == 65_536 && Pow2(32) == 0x1_0000_0000
  {
    Pow2Table();
    Pow2Known(8, 256, 8, 256);
    Pow2Of64();
  }

  method Adler32(data: seq<u8>) returns (r: u32)
    ensures r as nat == Adler(data)
  {
    var a: u32, b: u32 := 1, 0;
    var at := 0;
    while at < |data|
      invariant at <= |data| && a < BASE && b < BASE && (a as nat, b as nat) == Sums(data[..at])
    {
      var end := if |data| - at < 5552 then |data| else at + 5552;
      a, b := Chunk(data, at, end, a, b);
      at := end;
    }
    assert data[..at] == data;
    r := BothSums(a, b);
  }

  /** The header names deflate, passes its check and asks for no dictionary. */
  predicate Header(cmf: u8, flags: u8)
  {
    cmf % 16 == 8 && (256 * cmf as nat + flags as nat) % 31 == 0 && flags / 32 % 2 == 0
  }

  /** A zlib stream of o: a header, blocks, and the checksum of what they expand to. */
  ghost predicate Zlibs(data: seq<u8>, limit: nat, bs: seq<Deflate.Block>, o: seq<u8>, q: nat)
  {
    && |data| >= 2 && Header(data[0], data[1]) && Deflates(data[2..], limit, bs, o, q)
    && Trailed(data, 2 + Deflate.ByteFrom(q), o)
  }

  predicate Trailed(data: seq<u8>, t: nat, o: seq<u8>)
  {
    t + 4 <= |data| && BigEndian(data[t..t + 4]) == Adler(o)
  }

  /** r is what every zlib stream that the data can be holds. */
  ghost predicate OnlyHolds(data: seq<u8>, limit: nat, r: Option<seq<u8>>)
  {
    forall bs, o, q :: Zlibs(data, limit, bs, o, q) ==> r == Some(o)
  }

  lemma BadHeader(data: seq<u8>, limit: nat)
    requires |data| < 2 || !Header(data[0], data[1])
    ensures OnlyHolds(data, limit, None)
  {
  }

  lemma Unwrapped(data: seq<u8>, limit: nat, i: Option<Inflated>, r: Option<seq<u8>>)
    requires |data| >= 2 && OnlyInflates(data[2..], limit, i)
    requires i.Some? && Trailed(data, 2 + i.value.used, i.value.out) ==> r == Some(i.value.out)
    ensures OnlyHolds(data, limit, r)
  {
    forall bs, o, q | Zlibs(data, limit, bs, o, q) ensures r == Some(o) {
      InflatedAt(data, limit, i, bs, o, q);
    }
  }

  lemma InflatedAt(data: seq<u8>, limit: nat, i: Option<Inflated>, bs: seq<Deflate.Block>, o: seq<u8>, q: nat)
    requires |data| >= 2 && OnlyInflates(data[2..], limit, i) && Zlibs(data, limit, bs, o, q)
    ensures i == Some(Inflated(o, Deflate.ByteFrom(q))) && Trailed(data, 2 + Deflate.ByteFrom(q), o)
  {
    assert Deflates(data[2..], limit, bs, o, q);
  }

  /** What a zlib stream was made of; None when the data is none, or expands past the
      limit. */
  method ZlibDecompress(data: seq<u8>, limit: nat)
    returns (r: Option<seq<u8>>, ghost written: seq<Deflate.Block>, ghost end: nat)
    ensures r.Some? ==> Zlibs(data, limit, written, r.value, end) && |r.value| <= limit
    ensures OnlyHolds(data, limit, r)
  {
    written, end := [], 0;
    if |data| < 2 {
      BadHeader(data, limit);
      return None, written, end;
    }
    var cmf, flags := data[0], data[1];
    if cmf % 16 != 8 || (256 * cmf as nat + flags as nat) % 31 != 0 || flags / 32 % 2 != 0 {
      BadHeader(data, limit);
      return None, written, end;
    }
    r, written, end := Body(data, limit);
  }

  /** What follows the header. */
  method Body(data: seq<u8>, limit: nat) returns (r: Option<seq<u8>>, ghost written: seq<Deflate.Block>, ghost end: nat)
    requires |data| >= 2 && Header(data[0], data[1])
    ensures r.Some? ==> Zlibs(data, limit, written, r.value, end) && |r.value| <= limit
    ensures OnlyHolds(data, limit, r)
  {
    var inflated;
    inflated, written, end := Inflate.Inflate(data[2..], limit);
    r := None;
    if inflated.Some? {
      var ok := CheckTrailer(data, 2 + inflated.value.used, inflated.value.out);
      r := if ok then Some(inflated.value.out) else None;
    }
    Unwrapped(data, limit, inflated, r);
  }

  method CheckTrailer(data: seq<u8>, t: nat, out: seq<u8>) returns (ok: bool)
    ensures ok <==> Trailed(data, t, out)
  {
    if t + 4 > |data| {
      return false;
    }
    var sum := Adler32(out);
    ok := sum as nat == BigEndian(data[t..t + 4]);
  }
}
