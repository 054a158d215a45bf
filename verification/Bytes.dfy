/** Byte strings as little-endian integers. */
module Bytes {
  import opened Words

  /** Four bytes: a word of a key, a column of a block. */
  type Four = v: seq<u8> | |v| == 4 witness [0, 0, 0, 0]

  /** The integer little-endian bytes state. */
  function Little(s: seq<u8>): (r: nat)
  {
    if s == [] then 0 else s[0] as int + 256 * Little(s[1..])
  }

  /** The low 8 * length bits of n, little end first: `to_le_bytes`. */
  function LittleBytes(n: nat, length: nat): (r: seq<u8>)
    ensures |r| == length
  {
    if length == 0 then [] else [(n % 256) as u8] + LittleBytes(n / 256, length - 1)
  }

  lemma {:induction false} LittleBound(s: seq<u8>)
    ensures Little(s) < Pow2(8 * |s|)
  {
    if s != [] {
      LittleBound(s[1..]);
      Pow2Byte(|s| - 1);
    }
  }

  lemma Pow2Byte(n: nat)
    ensures Pow2(8 * (n + 1)) == 256 * Pow2(8 * n)
  {
    Pow2Add(8, 8 * n);
    Pow2Of64();
  }

  lemma {:induction false} LittleAppend(a: seq<u8>, b: seq<u8>)
    ensures Little(a + b) == Little(a) + Pow2(8 * |a|) * Little(b)
  {
    if a == [] {
      assert a + b == b;
    } else {
      assert (a + b)[1..] == a[1..] + b;
      LittleAppend(a[1..], b);
      Pow2Byte(|a| - 1);
      ShiftIn(Little(a[1..]), Pow2(8 * (|a| - 1)), Little(b));
    }
  }

  lemma ShiftIn(x: int, n: int, y: int)
    ensures 256 * (x + n * y) == 256 * x + (256 * n) * y
  {
  }

  /** Writing the low bytes of n and reading them back gives n modulo 2^(8 length). */
  lemma {:induction false} LittleRoundTrip(n: nat, length: nat)
    ensures Little(LittleBytes(n, length)) == n % Pow2(8 * length)
  {
    if length > 0 {
      LittleRoundTrip(n / 256, length - 1);
      Pow2Byte(length - 1);
      NestedMod(n, Pow2(8 * (length - 1)));
      var t := LittleBytes(n, length);
      assert t[1..] == LittleBytes(n / 256, length - 1);
    }
  }

  lemma NestedRemainder(q: nat, r: nat, low: nat, m: nat)
    requires r < m && low < 256
    ensures (256 * (m * q + r) + low) % (256 * m) == 256 * r + low
  {
    assert 256 * (m * q + r) + low == (256 * m) * q + (256 * r + low);
    ModUnique(256 * (m * q + r) + low, 256 * m, q, 256 * r + low);
  }

  lemma NestedMod(n: nat, m: nat)
    requires m > 0
    ensures n % (256 * m) == 256 * ((n / 256) % m) + n % 256
  {
    NestedRemainder((n / 256) / m, (n / 256) % m, n % 256, m);
  }

  /** Reading a byte string and writing it back gives the same bytes, so byte
      strings of one length are told apart by the integers they state. */
  lemma {:induction false} BytesRoundTrip(s: seq<u8>)
    ensures LittleBytes(Little(s), |s|) == s
  {
    if s != [] {
      BytesRoundTrip(s[1..]);
      var n := Little(s);
      assert n % 256 == s[0] as int && n / 256 == Little(s[1..]);
      assert LittleBytes(n, |s|) == [s[0]] + s[1..] == s;
    }
  }

  /** Only the low bytes are written. */
  lemma {:induction false} LittleBytesModulo(n: nat, length: nat)
    ensures LittleBytes(n % Pow2(8 * length), length) == LittleBytes(n, length)
  {
    LittleRoundTrip(n, length);
    BytesRoundTrip(LittleBytes(n, length));
  }

  /** The byte string of the given length that states n is the one written. */
  lemma WrittenOnce(s: seq<u8>, n: nat)
    requires Little(s) == n
    ensures s == LittleBytes(n, |s|)
  {
    BytesRoundTrip(s);
  }

  lemma Little4(s: seq<u8>)
    requires |s| >= 4
    ensures Little(s) == s[0] as int + 256 * s[1] as int + 0x1_0000 * s[2] as int + 0x100_0000 * s[3] as int
                         + 0x1_0000_0000 * Little(s[4..])
  {
    assert s[1..][1..] == s[2..] && s[2..][1..] == s[3..] && s[3..][1..] == s[4..];
    assert Little(s[3..]) == s[3] as int + 256 * Little(s[4..]);
    assert Little(s[2..]) == s[2] as int + 256 * Little(s[3..]);
    assert Little(s[1..]) == s[1] as int + 256 * Little(s[2..]);
  }

  /** The integer of sixteen bytes and more, by 32-bit words. */
  lemma Little16(s: seq<u8>)
    requires |s| >= 16
    ensures Little(s) == s[0] as int + 0x100 * s[1] as int + 0x1_0000 * s[2] as int + 0x100_0000 * s[3] as int
      + 0x1_0000_0000 * (s[4] as int + 0x100 * s[5] as int + 0x1_0000 * s[6] as int + 0x100_0000 * s[7] as int
      + 0x1_0000_0000 * (s[8] as int + 0x100 * s[9] as int + 0x1_0000 * s[10] as int + 0x100_0000 * s[11] as int
      + 0x1_0000_0000 * (s[12] as int + 0x100 * s[13] as int + 0x1_0000 * s[14] as int + 0x100_0000 * s[15] as int
      + 0x1_0000_0000 * Little(s[16..]))))
  {
    Little4(s);
    Little4(s[4..]);
    Little4(s[8..]);
    Little4(s[12..]);
    assert s[4..][4..] == s[8..] && s[8..][4..] == s[12..] && s[12..][4..] == s[16..];
  }

  lemma {:induction false} LittleZeros(n: nat)
    ensures Little(seq(n, i => 0)) == 0
  {
    if n > 0 {
      LittleZeros(n - 1);
      assert seq<u8>(n, i => 0)[1..] == seq<u8>(n - 1, i => 0);
    }
  }

  /** The 64-bit word at byte 8 i of a byte string. */
  function Word64(s: seq<u8>, i: nat): u64
    requires 8 * i + 8 <= |s|
  {
    LittleBound(s[8 * i..8 * i + 8]);
    Pow2Of64();
    Little(s[8 * i..8 * i + 8]) as u64
  }

  lemma AppendWord(a: seq<u8>, b: seq<u8>)
    requires |a| == 8
    ensures Little(a + b) == Little(a) + TWO64 * Little(b)
  {
    LittleAppend(a, b);
    Pow2Of64();
  }

  lemma WordRoundTrip(w: u64)
    ensures Little(LittleBytes(w as nat, 8)) == w as int
  {
    LittleRoundTrip(w as nat, 8);
    Pow2Of64();
    assert 8 * 8 == 64;
  }

  /** Four words written one after the other. */
  function FromWords(w: seq<u64>): (r: seq<u8>)
    ensures |r| == 8 * |w|
  {
    if w == [] then [] else LittleBytes(w[0] as nat, 8) + FromWords(w[1..])
  }

  /** The integer little-endian 64-bit words state. */
  function WordsValue(w: seq<u64>): nat
  {
    if w == [] then 0 else w[0] as int + TWO64 * WordsValue(w[1..])
  }

  lemma {:induction false} FromWordsValue(w: seq<u64>)
    ensures Little(FromWords(w)) == WordsValue(w)
  {
    if w != [] {
      FromWordsValue(w[1..]);
      AppendWord(LittleBytes(w[0] as nat, 8), FromWords(w[1..]));
      WordRoundTrip(w[0]);
    }
  }

  /** The 64-bit words of a byte string, 8 bytes each. */
  function ToWords(s: seq<u8>): (r: seq<u64>)
    requires |s| % 8 == 0
    ensures 8 * |r| == |s|
  {
    if s == [] then [] else [Word64(s, 0)] + ToWords(s[8..])
  }

  lemma {:induction false} ToWordsValue(s: seq<u8>)
    requires |s| % 8 == 0
    ensures WordsValue(ToWords(s)) == Little(s)
  {
    if s != [] {
      ToWordsValue(s[8..]);
      assert s == s[..8] + s[8..];
      AppendWord(s[..8], s[8..]);
      assert ToWords(s)[1..] == ToWords(s[8..]);
    }
  }

  /** The bit of a byte string's integer is the bit of the byte that holds it. */
  lemma BitOfByte(s: seq<u8>, index: nat)
    requires index < 8 * |s|
    ensures Little(s) / Pow2(index) % 2 == s[index / 8] as nat / Pow2(index % 8) % 2
  {
    var q, r := index / 8, index % 8;
    var tail := s[q..];
    assert s == s[..q] + tail;
    LittleAppend(s[..q], tail);
    LittleBound(s[..q]);
    var high := Little(tail[1..]);
    Pow2Add(8 * q, r);
    DivMul(Little(s), Pow2(8 * q), Pow2(r));
    ModUnique(Little(s), Pow2(8 * q), Little(tail), Little(s[..q]));
    Pow2Of64();
    Pow2Add(r, 8 - r);
    Pow2Add(1, 7 - r);
    assert Pow2(1) == 2;
    BitBelow(s[q] as nat, high, Pow2(r), Pow2(7 - r), 256);
  }

  /** `(s[i / 8] >> (i % 8)) & 1`. */
  function BitAt(s: seq<u8>, i: nat): (r: u64)
    requires i < 8 * |s|
    ensures r <= 1
  {
    (s[i / 8] as nat / Pow2(i % 8) % 2) as u64
  }

  /** The number the bits from i up make, read from the top. */
  function BitsFrom(s: seq<u8>, i: nat): nat
    requires i <= 8 * |s|
    decreases 8 * |s| - i
  {
    if i == 8 * |s| then 0 else 2 * BitsFrom(s, i + 1) + BitAt(s, i) as nat
  }

  lemma {:induction false} BitsFromIs(s: seq<u8>, i: nat)
    requires i <= 8 * |s|
    ensures BitsFrom(s, i) == Little(s) / Pow2(i)
    decreases 8 * |s| - i
  {
    if i == 8 * |s| {
      LittleBound(s);
      ModUnique(Little(s), Pow2(i), 0, Little(s));
    } else {
      BitsFromIs(s, i + 1);
      NextBit(Little(s), i);
      BitOfByte(s, i);
    }
  }

  /** Reading every bit from the top gives the integer. */
  lemma AllBits(s: seq<u8>)
    ensures BitsFrom(s, 0) == Little(s) && BitsFrom(s, 8 * |s|) == 0
  {
    BitsFromIs(s, 0);
    assert Little(s) / 1 == Little(s);
  }

  function Reverse(s: seq<u8>): (r: seq<u8>)
    ensures |r| == |s|
  {
    seq(|s|, i requires 0 <= i < |s| => s[|s| - 1 - i])
  }

  /** The integer big-endian bytes state. */
  function BigEndian(s: seq<u8>): nat
  {
    Little(Reverse(s))
  }

  /** The low n bits of v, low first. */
  function NumberBits(v: nat, n: nat): (b: seq<bool>)
    ensures |b| == n
  {
    if n == 0 then [] else [v % 2 == 1] + NumberBits(v / 2, n - 1)
  }

  lemma ReverseHead(s: seq<u8>)
    requires s != []
    ensures Reverse(s) == Reverse(s[1..]) + [s[0]]
  {
  }

  lemma BigEndianHead(s: seq<u8>)
    requires s != []
    ensures BigEndian(s) == BigEndian(s[1..]) + Pow2(8 * (|s| - 1)) * s[0] as nat
  {
    ReverseHead(s);
    LittleAppend(Reverse(s[1..]), [s[0]]);
    LittleOne(s[0]);
  }

  lemma LittleOne(x: u8)
    ensures Little([x]) == x as nat
  {
    assert Little([x]) == x as int + 256 * Little([x][1..]);
  }

  lemma BigEndianLast(s: seq<u8>)
    requires s != []
    ensures BigEndian(s) == 256 * BigEndian(s[..|s| - 1]) + s[|s| - 1] as nat
  {
    assert Reverse(s) == [s[|s| - 1]] + Reverse(s[..|s| - 1]);
  }

  lemma BigEndianBound(s: seq<u8>)
    ensures BigEndian(s) < Pow2(8 * |s|)
  {
    LittleBound(Reverse(s));
  }

  /** The low n bits of v, high first. */
  function HighBits(v: nat, n: nat): (b: seq<bool>)
    ensures |b| == n
  {
    if n == 0 then [] else HighBits(v / 2, n - 1) + [v % 2 == 1]
  }

  /** The first j of the bits of v are the bits of v without the low ones. */
  lemma {:induction false} HighPrefix(v: nat, n: nat, j: nat)
    requires j <= n
    ensures HighBits(v, n)[..j] == HighBits(v / Pow2(n - j), j)
  {
    if j == n {
      assert v / 1 == v;
    } else {
      HighPrefix(v / 2, n - 1, j);
      assert HighBits(v, n)[..j] == HighBits(v / 2, n - 1)[..j];
      DivMul(v, 2, Pow2(n - 1 - j));
    }
  }

  lemma {:induction false} HighAppend(a: nat, b: nat, n: nat, m: nat)
    requires b < Pow2(m)
    ensures HighBits(a, n) + HighBits(b, m) == HighBits(a * Pow2(m) + b, n + m)
  {
    if m == 0 {
      assert HighBits(a, n) + [] == HighBits(a, n);
    } else {
      HighAppend(a, b / 2, n, m - 1);
      HalfOf(b, Pow2(m - 1), a);
      assert HighBits(a, n) + (HighBits(b / 2, m - 1) + [b % 2 == 1]) == (HighBits(a, n) + HighBits(b / 2, m - 1)) + [b % 2 == 1];
    }
  }

  // ---- exclusive-or ---------------------------------------------------------------------

  function XorByte(a: u8, b: u8): (r: u8)
    ensures r as int == Xor(a as nat, b as nat)
  {
    Pow2Of64();
    XorBound(a as nat, b as nat, 8);
    Xor(a as nat, b as nat) as u8
  }

  lemma XorByteCancels(a: u8, b: u8)
    ensures XorByte(XorByte(a, b), b) == a
  {
    XorCancels(a as nat, b as nat);
  }

  lemma XorByteLaws(a: u8, b: u8, c: u8)
    ensures XorByte(a, b) == XorByte(b, a)
    ensures XorByte(XorByte(a, b), c) == XorByte(a, XorByte(b, c))
    ensures XorByte(0, a) == a && XorByte(a, a) == 0
  {
    XorCommutes(a as nat, b as nat);
    XorAssociates(a as nat, b as nat, c as nat);
    XorSelf(a as nat);
  }

  /** r is the exclusive-or of a and b, checked bit by bit. */
  predicate IsXor(a: nat, b: nat, r: nat, n: nat)
  {
    if n == 0 then a == b == r == 0
    else r % 2 == Differ(a, b) && IsXor(a / 2, b / 2, r / 2, n - 1)
  }

  lemma {:induction false} XorChecked(a: nat, b: nat, r: nat, n: nat)
    requires IsXor(a, b, r, n)
    ensures Xor(a, b) == r
  {
    if n > 0 {
      XorChecked(a / 2, b / 2, r / 2, n - 1);
      XorStep(a, b);
    }
  }

  lemma XorIs(a: u8, b: u8, r: u8)
    requires IsXor(a as nat, b as nat, r as nat, 8)
    ensures XorByte(a, b) == r
  {
    XorChecked(a as nat, b as nat, r as nat, 8);
  }
}
