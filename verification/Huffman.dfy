/** The bit cursor and canonical Huffman codes of inflate.rs (section 3.2.2 of
    RFC 1951). */
module Huffman {
  import opened Options
  import opened Words
  import opened Bytes

  // ---- bits ------------------------------------------------------------------------

  /** The bits of the data, each byte's low bit first. */
  function Stream(data: seq<u8>): (s: seq<bool>)
    ensures |s| == 8 * |data|
  {
    if data == [] then [] else NumberBits(data[0] as nat, 8) + Stream(data[1..])
  }

  lemma {:induction false} NumberBitAt(v: nat, n: nat, j: nat)
    requires j < n
    ensures NumberBits(v, n)[j] <==> v / Pow2(j) % 2 == 1
  {
    if j == 0 {
      assert v / 1 == v;
    } else {
      NumberBitAt(v / 2, n - 1, j - 1);
      DivMul(v, 2, Pow2(j - 1));
    }
  }

  lemma {:induction false} StreamAt(data: seq<u8>, i: nat, j: nat)
    requires i < |data| && j < 8
    ensures Stream(data)[8 * i + j] <==> data[i] as nat / Pow2(j) % 2 == 1
  {
    if i == 0 {
      NumberBitAt(data[0] as nat, 8, j);
    } else {
      StreamAt(data[1..], i - 1, j);
    }
  }

  function Num(b: bool): nat
  {
    if b then 1 else 0
  }

  /** Bits as a number, the first the lowest. */
  function LowFirst(b: seq<bool>): nat
  {
    if b == [] then 0 else Num(b[0]) + 2 * LowFirst(b[1..])
  }

  /** Bits as a number, the first the highest. */
  function HighFirst(b: seq<bool>): nat
  {
    if b == [] then 0 else 2 * HighFirst(b[..|b| - 1]) + Num(b[|b| - 1])
  }

  /** x stands in s at p. */
  predicate StandsAt(s: seq<bool>, p: nat, x: seq<bool>)
  {
    p + |x| <= |s| && s[p..p + |x|] == x
  }

  lemma StandsApart(s: seq<bool>, p: nat, x: seq<bool>, y: seq<bool>)
    ensures StandsAt(s, p, x + y) <==> StandsAt(s, p, x) && StandsAt(s, p + |x|, y)
  {
    if p + |x| + |y| <= |s| {
      assert s[p..p + |x| + |y|] == s[p..p + |x|] + s[p + |x|..p + |x| + |y|];
      if s[p..p + |x| + |y|] == x + y {
        assert s[p..p + |x|] == (x + y)[..|x|] == x;
        assert s[p + |x|..p + |x| + |y|] == (x + y)[|x|..] == y;
      }
    }
  }

  lemma {:induction false} NumberValue(v: nat, n: nat)
    requires v < Pow2(n)
    ensures LowFirst(NumberBits(v, n)) == v
  {
    if n > 0 {
      NumberValue(v / 2, n - 1);
      assert NumberBits(v, n)[1..] == NumberBits(v / 2, n - 1);
    }
  }

  lemma {:induction false} LowFirstBits(b: seq<bool>)
    ensures LowFirst(b) < Pow2(|b|) && NumberBits(LowFirst(b), |b|) == b
  {
    if b != [] {
      LowFirstBits(b[1..]);
      assert b == [b[0]] + b[1..];
    }
  }

  lemma LowFirstPush(b: seq<bool>, x: bool)
    ensures LowFirst(b + [x]) == LowFirst(b) + Num(x) * Pow2(|b|)
  {
    if b == [] {
      assert (b + [x])[1..] == [];
    } else {
      assert (b + [x])[1..] == b[1..] + [x];
      LowFirstPush(b[1..], x);
      Doubled(Num(x), Pow2(|b| - 1));
    }
  }

  /** Where reading has got to in the data. */
  lemma OneBitMore(s: seq<bool>, p: nat, i: nat)
    requires p + i < |s|
    ensures LowFirst(s[p..p + i + 1]) == LowFirst(s[p..p + i]) + Num(s[p + i]) * Pow2(i)
  {
    assert s[p..p + i + 1] == s[p..p + i] + [s[p + i]];
    LowFirstPush(s[p..p + i], s[p + i]);
  }

  class Bits {
    const data: seq<u8>
    var at: nat
    var bit: nat

    ghost predicate Valid()
      reads this
    {
      bit < 8 && at <= |data| && (at == |data| ==> bit == 0)
    }

    function Pos(): nat
      reads this
    {
      8 * at + bit
    }

    constructor (d: seq<u8>)
      ensures Valid() && data == d && Pos() == 0 && at == 0 && bit == 0
    {
      data := d;
      at, bit := 0, 0;
    }

    /** `count` bits as a number, low first; None when the data ends before. */
    method Take(count: nat) returns (r: Option<nat>)
      requires Valid()
      modifies this
      ensures Valid() && Pos() >= old(Pos())
      ensures r == if old(Pos()) + count <= |Stream(data)| then Some(LowFirst(Stream(data)[old(Pos())..old(Pos()) + count])) else None
      ensures r.Some? ==> Pos() == old(Pos()) + count
    {
      var value := 0;
      ghost var p, s := Pos(), Stream(data);
      for i := 0 to count
        invariant Valid() && Pos() == p + i <= |s|
        invariant value == LowFirst(s[p..p + i])
      {
        if at >= |data| {
          return None;
        }
        var b := data[at] as nat / Pow2(bit) % 2;
        StreamAt(data, at, bit);
        OneBitMore(s, p, i);
        value := value + b * Pow2(i);
        bit := bit + 1;
        if bit == 8 {
          bit := 0;
          at := at + 1;
        }
      }
      r := Some(value);
    }

    method TakeOne() returns (r: Option<nat>)
      requires Valid()
      modifies this
      ensures Valid() && Pos() >= old(Pos())
      ensures r == if old(Pos()) < |Stream(data)| then Some(Num(Stream(data)[old(Pos())])) else None
      ensures r.Some? ==> Pos() == old(Pos()) + 1
    {
      ghost var s, p := Stream(data), Pos();
      r := Take(1);
      if p < |s| {
        assert s[p..p + 1] == [s[p]];
        assert LowFirst([s[p]]) == Num(s[p]) + 2 * LowFirst([]);
      }
    }

    /** On to the next whole byte. */
    method Align()
      requires Valid()
      modifies this
      ensures Valid() && bit == 0 && at == (old(Pos()) + 7) / 8
    {
      if bit != 0 {
        bit := 0;
        at := at + 1;
      }
    }
  }

  // ---- canonical codes ----------------------------------------------------------------

  predicate CodeLengths(l: seq<nat>)
  {
    |l| <= 0xffff && forall i :: 0 <= i < |l| ==> l[i] <= 15
  }

  /** How many of the first n symbols have length k. */
  function CountUpTo(l: seq<nat>, k: nat, n: nat): (c: nat)
    requires n <= |l|
    ensures c <= n
  {
    if n == 0 then 0 else CountUpTo(l, k, n - 1) + (if l[n - 1] == k then 1 else 0)
  }

  /** How many codes have length k; length 0 means no code. */
  function Count(l: seq<nat>, k: nat): nat
  {
    if k == 0 then 0 else CountUpTo(l, k, |l|)
  }

  /** The first code of length k. */
  function First(l: seq<nat>, k: nat): nat
  {
    if k == 0 then 0 else 2 * (First(l, k - 1) + Count(l, k - 1))
  }

  /** How many codes are shorter than k. */
  function Start(l: seq<nat>, k: nat): nat
  {
    if k == 0 then 0 else Start(l, k - 1) + Count(l, k - 1)
  }

  predicate FitsAt(l: seq<nat>, k: nat)
  {
    First(l, k) + Count(l, k) <= Pow2(k)
  }

  /** No length has more codes than fit. */
  predicate Fits(l: seq<nat>)
  {
    forall k :: 1 <= k <= 15 ==> FitsAt(l, k)
  }

  function Rank(l: seq<nat>, symbol: nat): nat
    requires symbol < |l|
  {
    CountUpTo(l, l[symbol], symbol)
  }

  /** The code of a symbol: within a length, codes follow the symbols' order. */
  function Code(l: seq<nat>, symbol: nat): nat
    requires symbol < |l|
  {
    First(l, l[symbol]) + Rank(l, symbol)
  }

  function CodeBits(l: seq<nat>, symbol: nat): (b: seq<bool>)
    requires symbol < |l|
    ensures |b| == l[symbol]
  {
    HighBits(Code(l, symbol), l[symbol])
  }

  lemma {:induction false} HighValue(v: nat, n: nat)
    requires v < Pow2(n)
    ensures HighFirst(HighBits(v, n)) == v
  {
    if n > 0 {
      HighValue(v / 2, n - 1);
      assert HighBits(v, n)[..n - 1] == HighBits(v / 2, n - 1);
    }
  }

  lemma {:induction false} HighUnique(b: seq<bool>)
    ensures HighFirst(b) < Pow2(|b|) && HighBits(HighFirst(b), |b|) == b
  {
    if b != [] {
      HighUnique(b[..|b| - 1]);
      assert b == b[..|b| - 1] + [b[|b| - 1]];
    }
  }

  /** The symbol's code stands at p. */
  predicate Decodes(l: seq<nat>, s: seq<bool>, p: nat, symbol: nat)
  {
    symbol < |l| && l[symbol] > 0 && StandsAt(s, p, CodeBits(l, symbol))
  }

  lemma {:induction false} CountGrows(l: seq<nat>, k: nat, m: nat, n: nat)
    requires m <= n <= |l|
    ensures CountUpTo(l, k, m) <= CountUpTo(l, k, n)
  {
    if m < n { CountGrows(l, k, m, n - 1); }
  }

  lemma RankBelowCount(l: seq<nat>, symbol: nat)
    requires symbol < |l|
    ensures Rank(l, symbol) < CountUpTo(l, l[symbol], |l|)
  {
    CountGrows(l, l[symbol], symbol + 1, |l|);
  }

  lemma RankOrders(l: seq<nat>, a: nat, b: nat)
    requires a < b < |l| && l[a] == l[b]
    ensures Rank(l, a) < Rank(l, b)
  {
    CountGrows(l, l[a], a + 1, b);
  }

  /** Every rank below the count is some symbol's. */
  lemma {:induction false} SymbolOfRank(l: seq<nat>, k: nat, r: nat, n: nat) returns (symbol: nat)
    requires n <= |l| && r < CountUpTo(l, k, n)
    ensures symbol < n && l[symbol] == k && Rank(l, symbol) == r
  {
    if l[n - 1] == k && CountUpTo(l, k, n - 1) == r {
      symbol := n - 1;
    } else {
      symbol := SymbolOfRank(l, k, r, n - 1);
    }
  }

  lemma CodeFits(l: seq<nat>, symbol: nat)
    requires CodeLengths(l) && Fits(l) && symbol < |l| && l[symbol] > 0
    ensures Code(l, symbol) < First(l, l[symbol]) + Count(l, l[symbol]) <= Pow2(l[symbol])
    ensures HighFirst(CodeBits(l, symbol)) == Code(l, symbol)
  {
    assert FitsAt(l, l[symbol]);
    RankBelowCount(l, symbol);
    HighValue(Code(l, symbol), l[symbol]);
  }

  /** Longer codes start past the end of all shorter ones, at their depth. */
  lemma {:induction false} LongerCodesAbove(l: seq<nat>, j: nat, k: nat)
    requires j < k
    ensures First(l, k) >= Pow2(k - j) * (First(l, j) + Count(l, j))
  {
    if j == k - 1 {
      assert Pow2(1) == 2;
    } else {
      LongerCodesAbove(l, j, k - 1);
      assert Pow2(k - j) == 2 * Pow2(k - 1 - j);
      Twice(Pow2(k - 1 - j), First(l, j) + Count(l, j));
    }
  }

  lemma Twice(m: int, x: int)
    ensures (2 * m) * x == 2 * (m * x)
  {
  }

  lemma LessByOne(m: int, c: int)
    ensures m * (c - 1) == m * c - m
  {
  }

  lemma QuotientAbove(v: nat, m: nat, c: nat)
    requires m > 0 && v >= m * c
    ensures v / m >= c
  {
    QuotientRemainder(v, m);
    LessByOne(m, c);
    if v / m < c { ProductBound(m, v / m, m, c - 1); }
  }

  /** The bits of a symbol's code are its code, below the end of its length's codes. */
  lemma ValueAt(l: seq<nat>, s: seq<bool>, p: nat, a: nat)
    requires CodeLengths(l) && Fits(l) && Decodes(l, s, p, a)
    ensures HighFirst(s[p..p + l[a]]) == Code(l, a) < First(l, l[a]) + Count(l, l[a])
  {
    CodeFits(l, a);
  }

  /** Any proper start of a code, as a number, lies past every code of its length. */
  lemma PrefixAt(l: seq<nat>, s: seq<bool>, p: nat, b: nat, j: nat)
    requires CodeLengths(l) && Fits(l) && Decodes(l, s, p, b) && 0 < j < l[b]
    ensures HighFirst(s[p..p + j]) >= First(l, j) + Count(l, j)
  {
    assert s[p..p + j] == s[p..p + l[b]][..j] == CodeBits(l, b)[..j];
    PrefixAbove(l, b, j);
  }

  lemma PrefixAbove(l: seq<nat>, b: nat, j: nat)
    requires CodeLengths(l) && Fits(l) && b < |l| && 0 < j < l[b]
    ensures HighFirst(CodeBits(l, b)[..j]) >= First(l, j) + Count(l, j)
  {
    var k, v := l[b], Code(l, b);
    CodeFits(l, b);
    LongerCodesAbove(l, j, k);
    ShiftedPrefix(v, k, j, First(l, j) + Count(l, j));
  }

  lemma ShiftedPrefix(v: nat, k: nat, j: nat, c: nat)
    requires v < Pow2(k) && j <= k && v >= Pow2(k - j) * c
    ensures HighFirst(HighBits(v, k)[..j]) >= c
  {
    QuotientAbove(v, Pow2(k - j), c);
    HighPrefix(v, k, j);
    PrefixSmall(v, k, j);
    HighValue(v / Pow2(k - j), j);
  }

  lemma NotShorter(l: seq<nat>, s: seq<bool>, p: nat, a: nat, b: nat)
    requires CodeLengths(l) && Fits(l) && Decodes(l, s, p, a) && Decodes(l, s, p, b)
    ensures l[a] >= l[b]
  {
    ValueAt(l, s, p, a);
    if l[a] < l[b] {
      PrefixAt(l, s, p, b, l[a]);
    }
  }

  /** No code is the start of another: at any place at most one symbol's code stands. */
  lemma PrefixFree(l: seq<nat>, s: seq<bool>, p: nat, a: nat, b: nat)
    requires CodeLengths(l) && Fits(l) && Decodes(l, s, p, a) && Decodes(l, s, p, b)
    ensures a == b
  {
    NotShorter(l, s, p, a, b);
    NotShorter(l, s, p, b, a);
    ValueAt(l, s, p, a);
    ValueAt(l, s, p, b);
    if a < b {
      RankOrders(l, a, b);
    } else if b < a {
      RankOrders(l, b, a);
    }
  }

  lemma PrefixSmall(v: nat, k: nat, j: nat)
    requires v < Pow2(k) && j <= k
    ensures v / Pow2(k - j) < Pow2(j)
  {
    Pow2Add(k - j, j);
    QuotientRemainder(v, Pow2(k - j));
    if v / Pow2(k - j) >= Pow2(j) { ProductBound(Pow2(k - j), Pow2(j), Pow2(k - j), v / Pow2(k - j)); }
  }

  // ---- the table ------------------------------------------------------------------------

  /** How many codes of each length, and the symbols in code order. */
  datatype Table = Table(counts: seq<nat>, symbols: seq<nat>)

  ghost predicate Describes(h: Table, l: seq<nat>)
  {
    && CodeLengths(l) && Fits(l)
    && |h.counts| == 16 && (forall k :: 0 <= k < 16 ==> CountsAt(h.counts, l, k))
    && |h.symbols| == |l| && Start(l, 16) <= |l|
    && Placed(h.symbols, l, |l|)
  }

  ghost predicate CountsAt(counts: seq<nat>, l: seq<nat>, k: nat)
    requires k < |counts|
  {
    counts[k] == Count(l, k)
  }

  /** The first n symbols stand at their places in code order. */
  ghost predicate Placed(symbols: seq<nat>, l: seq<nat>, n: nat)
    requires n <= |l| == |symbols|
  {
    forall j {:trigger PlacedAt(symbols, l, j)} :: 0 <= j < n && l[j] > 0 ==> PlacedAt(symbols, l, j)
  }

  ghost predicate PlacedAt(symbols: seq<nat>, l: seq<nat>, j: nat)
    requires j < |l|
  {
    PlaceOf(l, j) < |symbols| && symbols[PlaceOf(l, j)] == j
  }

  /** A symbol's place in code order. */
  function PlaceOf(l: seq<nat>, j: nat): nat
    requires j < |l|
  {
    Start(l, l[j]) + Rank(l, j)
  }

  lemma {:induction false} StartGrows(l: seq<nat>, j: nat, k: nat)
    requires j < k
    ensures Start(l, j) + Count(l, j) <= Start(l, k)
  {
    if j < k - 1 { StartGrows(l, j, k - 1); }
  }

  /** The codes of the first n symbols shorter than k. */
  function StartUpTo(l: seq<nat>, k: nat, n: nat): nat
    requires n <= |l|
  {
    if k <= 1 then 0 else StartUpTo(l, k - 1, n) + CountUpTo(l, k - 1, n)
  }

  lemma {:induction false} StartStep(l: seq<nat>, k: nat, n: nat)
    requires n < |l|
    ensures StartUpTo(l, k, n + 1) == StartUpTo(l, k, n) + (if 1 <= l[n] < k then 1 else 0)
  {
    if k > 1 { StartStep(l, k - 1, n); }
  }

  lemma {:induction false} StartTotal(l: seq<nat>, k: nat, n: nat)
    requires n <= |l|
    ensures StartUpTo(l, k, n) <= n
  {
    if n > 0 {
      StartTotal(l, k, n - 1);
      StartStep(l, k, n - 1);
    } else {
      StartNone(l, k);
    }
  }

  lemma {:induction false} StartNone(l: seq<nat>, k: nat)
    ensures StartUpTo(l, k, 0) == 0
  {
    if k > 1 { StartNone(l, k - 1); }
  }

  lemma {:induction false} StartIs(l: seq<nat>, k: nat)
    ensures Start(l, k) == StartUpTo(l, k, |l|)
  {
    if k > 1 { StartIs(l, k - 1); } else if k == 1 { assert Start(l, 0) == 0; }
  }

  /** The table of the lengths; None exactly when some length has too many codes. */
  method New(l: seq<nat>) returns (r: Option<Table>)
    requires CodeLengths(l)
    ensures r.None? <==> !Fits(l)
    ensures r.Some? ==> Describes(r.value, l)
  {
    var counts := CountLengths(l);
    var fits := CheckFits(l, counts);
    if !fits {
      return None;
    }
    StartTotal(l, 16, |l|);
    StartIs(l, 16);
    var symbols := Place(l, counts);
    r := Some(Table(counts, symbols));
  }

  method CountLengths(l: seq<nat>) returns (counts: seq<nat>)
    requires CodeLengths(l)
    ensures |counts| == 16 && forall k :: 0 <= k < 16 ==> CountsAt(counts, l, k)
  {
    counts := seq(16, i => 0);
    for i := 0 to |l|
      invariant |counts| == 16 && forall k :: 0 <= k < 16 ==> counts[k] == CountUpTo(l, k, i)
    {
      counts := counts[l[i] := counts[l[i]] + 1];
    }
    counts := counts[0 := 0];
  }

  /** Whether no length has more codes than the shorter ones leave. */
  method CheckFits(l: seq<nat>, counts: seq<nat>) returns (ok: bool)
    requires |counts| == 16 && forall k :: 0 <= k < 16 ==> CountsAt(counts, l, k)
    ensures ok <==> Fits(l)
  {
    var left: int := 1;
    assert First(l, 0) == 0 && Count(l, 0) == 0;
    for k := 1 to 16
      invariant left == Pow2(k - 1) - (First(l, k - 1) + Count(l, k - 1))
      invariant forall j :: 1 <= j < k ==> FitsAt(l, j)
    {
      assert CountsAt(counts, l, k);
      assert Pow2(k) == 2 * Pow2(k - 1) && First(l, k) == 2 * (First(l, k - 1) + Count(l, k - 1));
      left := left * 2 - counts[k];
      if left < 0 {
        assert !FitsAt(l, k);
        return false;
      }
    }
    ok := true;
  }

  /** Every symbol with a code at its place in code order. */
  method Place(l: seq<nat>, counts: seq<nat>) returns (symbols: seq<nat>)
    requires CodeLengths(l) && |counts| == 16 && (forall k :: 0 <= k < 16 ==> CountsAt(counts, l, k))
    requires Start(l, 16) <= |l|
    ensures |symbols| == |l| && Placed(symbols, l, |l|)
  {
    var offsets := FirstOffsets(l, counts);
    symbols := seq(|l|, i => 0);
    for n := 0 to |l|
      invariant |symbols| == |l|
      invariant Offsets(l, offsets, n)
      invariant Placed(symbols, l, n)
    {
      OffsetsNext(l, offsets, n);
      if l[n] != 0 {
        OffsetIs(l, offsets, n);
        PlaceNext(symbols, l, n);
        symbols := symbols[offsets[l[n]] := n];
        offsets := offsets[l[n] := offsets[l[n]] + 1];
      } else {
        PlaceNone(symbols, l, n);
      }
    }
  }

  method FirstOffsets(l: seq<nat>, counts: seq<nat>) returns (offsets: seq<nat>)
    requires |counts| == 16 && forall k :: 0 <= k < 16 ==> CountsAt(counts, l, k)
    ensures Offsets(l, offsets, 0)
  {
    offsets := seq(16, i => 0);
    for k := 1 to 16
      invariant |offsets| == 16 && forall j :: 0 <= j < k ==> offsets[j] == Start(l, j)
    {
      assert CountsAt(counts, l, k - 1);
      offsets := offsets[k := offsets[k - 1] + counts[k - 1]];
    }
    forall k | 1 <= k < 16 ensures OffsetAt(l, offsets, 0, k) {}
  }

  /** Where the next symbol of each length goes, after the first n. */
  ghost predicate Offsets(l: seq<nat>, offsets: seq<nat>, n: nat)
    requires n <= |l|
  {
    |offsets| == 16 && forall k :: 1 <= k < 16 ==> OffsetAt(l, offsets, n, k)
  }

  ghost predicate OffsetAt(l: seq<nat>, offsets: seq<nat>, n: nat, k: nat)
    requires n <= |l| && k < |offsets|
  {
    offsets[k] == Start(l, k) + CountUpTo(l, k, n)
  }

  lemma OffsetsNext(l: seq<nat>, offsets: seq<nat>, n: nat)
    requires n < |l| && l[n] <= 15 && Offsets(l, offsets, n)
    ensures Offsets(l, if l[n] == 0 then offsets else offsets[l[n] := offsets[l[n]] + 1], n + 1)
  {
    var next := if l[n] == 0 then offsets else offsets[l[n] := offsets[l[n]] + 1];
    var m := n + 1;
    forall k | 1 <= k < 16 ensures OffsetAt(l, next, m, k) {
      assert OffsetAt(l, offsets, n, k);
    }
  }

  lemma OffsetIs(l: seq<nat>, offsets: seq<nat>, n: nat)
    requires n < |l| && 1 <= l[n] <= 15 && Offsets(l, offsets, n)
    ensures offsets[l[n]] == PlaceOf(l, n)
  {
    assert OffsetAt(l, offsets, n, l[n]);
  }

  /** Two symbols have two places. */
  lemma PlacesDiffer(l: seq<nat>, j: nat, n: nat)
    requires j < n < |l| && l[j] > 0 && l[n] > 0
    ensures PlaceOf(l, j) != PlaceOf(l, n)
  {
    RankBelowCount(l, n);
    RankBelowCount(l, j);
    if l[j] == l[n] { RankOrders(l, j, n); }
    else if l[j] < l[n] { StartGrows(l, l[j], l[n]); }
    else { StartGrows(l, l[n], l[j]); }
  }

  lemma PlaceNext(symbols: seq<nat>, l: seq<nat>, n: nat)
    requires CodeLengths(l) && n < |l| == |symbols| && l[n] > 0 && Placed(symbols, l, n)
    requires Start(l, 16) <= |l|
    ensures PlaceOf(l, n) < |l| && Placed(symbols[PlaceOf(l, n) := n], l, n + 1)
  {
    RankBelowCount(l, n);
    StartGrows(l, l[n], 16);
    var t := symbols[PlaceOf(l, n) := n];
    forall j | 0 <= j < n + 1 && l[j] > 0 ensures PlacedAt(t, l, j) {
      if j < n {
        assert PlacedAt(symbols, l, j);
        PlacesDiffer(l, j, n);
      }
    }
  }

  lemma PlaceNone(symbols: seq<nat>, l: seq<nat>, n: nat)
    requires n < |l| == |symbols| && l[n] == 0 && Placed(symbols, l, n)
    ensures Placed(symbols, l, n + 1)
  {
    forall j | 0 <= j < n + 1 && l[j] > 0 ensures PlacedAt(symbols, l, j) {
      assert j < n;
    }
  }

  // ---- decoding ----------------------------------------------------------------------------

  /** The symbol whose code stands at p, if any. */
  ghost function Next(l: seq<nat>, s: seq<bool>, p: nat): (r: Option<nat>)
  {
    if symbol: nat :| Decodes(l, s, p, symbol) then Some(symbol) else None
  }

  lemma NextIs(l: seq<nat>, s: seq<bool>, p: nat, symbol: nat)
    requires CodeLengths(l) && Fits(l)
    ensures Next(l, s, p) == Some(symbol) <==> Decodes(l, s, p, symbol)
  {
    if Decodes(l, s, p, symbol) {
      var chosen := Next(l, s, p).value;
      PrefixFree(l, s, p, symbol, chosen);
    }
  }

  /** What the decoding loop knows before it reads bit k: the bits so far as a code,
      the first code of length k, and that no code shorter than k stood here. */
  ghost predicate Reading(l: seq<nat>, s: seq<bool>, p: nat, k: nat, code: nat, first: nat, index: nat)
  {
    && 1 <= k && p + k - 1 <= |s| && code == 2 * HighFirst(s[p..p + k - 1])
    && first == First(l, k) <= code && index == Start(l, k) && NoneShorter(l, s, p, k)
  }

  ghost predicate NoneShorter(l: seq<nat>, s: seq<bool>, p: nat, k: nat)
  {
    forall a: nat :: Decodes(l, s, p, a) ==> l[a] >= k
  }

  /** The first k bits are the code of a symbol. */
  lemma FoundAt(h: Table, l: seq<nat>, s: seq<bool>, p: nat, k: nat, code: nat, first: nat, index: nat, next: nat)
    returns (symbol: nat)
    requires Describes(h, l) && Reading(l, s, p, k, code, first, index) && k <= 15 && p + k <= |s|
    requires next == code + Num(s[p + k - 1]) && next < first + Count(l, k)
    ensures Next(l, s, p) == Some(symbol) && symbol < |l| && l[symbol] == k
    ensures first <= next && index + (next - first) < |h.symbols| && h.symbols[index + (next - first)] == symbol
  {
    NextCode(s, p, k);
    symbol := Found(h, l, s, p, k, next);
  }

  lemma NextCode(s: seq<bool>, p: nat, k: nat)
    requires 1 <= k && p + k <= |s|
    ensures HighFirst(s[p..p + k]) == 2 * HighFirst(s[p..p + k - 1]) + Num(s[p + k - 1])
  {
    assert s[p..p + k][..k - 1] == s[p..p + k - 1];
  }

  lemma Advance(l: seq<nat>, s: seq<bool>, p: nat, k: nat, code: nat, first: nat, index: nat, next: nat)
    requires CodeLengths(l) && Fits(l) && Reading(l, s, p, k, code, first, index) && k <= 15 && p + k <= |s|
    requires next == code + Num(s[p + k - 1]) && next >= first + Count(l, k)
    ensures Reading(l, s, p, k + 1, 2 * next, 2 * (first + Count(l, k)), index + Count(l, k))
  {
    NextCode(s, p, k);
    NotFound(l, s, p, k);
  }

  lemma Exhausted(l: seq<nat>, s: seq<bool>, p: nat, k: nat)
    requires CodeLengths(l) && NoneShorter(l, s, p, k) && (p + k > |s| || k > 15)
    ensures Next(l, s, p) == None
  {
    if symbol: nat :| Decodes(l, s, p, symbol) { assert false; }
  }

  /** The one symbol whose code stands at the cursor, which moves past exactly that
      code; None when no symbol's code does. */
  method Decode(h: Table, bits: Bits, ghost l: seq<nat>) returns (r: Option<nat>)
    requires bits.Valid() && Describes(h, l)
    modifies bits
    ensures bits.Valid() && bits.Pos() >= old(bits.Pos())
    ensures r == Next(l, Stream(bits.data), old(bits.Pos()))
    ensures r.Some? ==> bits.Pos() == old(bits.Pos()) + l[r.value]
  {
    var code: nat, first: nat, index: nat := 0, 0, 0;
    ghost var s, p := Stream(bits.data), bits.Pos();
    assert First(l, 1) == 0 && Start(l, 1) == 0 by { assert First(l, 0) == 0 && Start(l, 0) == 0; }
    for length := 1 to 16
      invariant bits.Valid() && bits.Pos() == p + length - 1
      invariant Reading(l, s, p, length, code, first, index)
    {
      var b := bits.TakeOne();
      if b.None? {
        Exhausted(l, s, p, length);
        return None;
      }
      // The low bit of the shifted code is clear, so or-ing the bit in adds it.
      ghost var was := code;
      code := code + b.value;
      assert CountsAt(h.counts, l, length);
      var count := h.counts[length];
      if code - count < first {
        ghost var symbol := FoundAt(h, l, s, p, length, was, first, index, code);
        r := Some(h.symbols[index + (code - first)]);
        return;
      }
      Advance(l, s, p, length, was, first, index, code);
      index := index + count;
      first := (first + count) * 2;
      code := code * 2;
    }
    Exhausted(l, s, p, 16);
    r := None;
  }

  /** When the bits so far lie among the codes of their length, they are the code of
      the symbol the table holds there. */
  lemma Found(h: Table, l: seq<nat>, s: seq<bool>, p: nat, k: nat, code: nat) returns (symbol: nat)
    requires Describes(h, l) && 1 <= k <= 15 && p + k <= |s| && code == HighFirst(s[p..p + k])
    requires First(l, k) <= code < First(l, k) + Count(l, k)
    ensures Next(l, s, p) == Some(symbol) && symbol < |l| && l[symbol] == k
    ensures Start(l, k) + (code - First(l, k)) < |h.symbols| && h.symbols[Start(l, k) + (code - First(l, k))] == symbol
  {
    symbol := SymbolAt(h, l, k, code - First(l, k));
    CodeAt(l, s, p, symbol);
  }

  lemma SymbolAt(h: Table, l: seq<nat>, k: nat, r: nat) returns (symbol: nat)
    requires Describes(h, l) && 1 <= k <= 15 && r < Count(l, k)
    ensures Start(l, k) + r < |h.symbols| && h.symbols[Start(l, k) + r] == symbol
    ensures symbol < |l| && l[symbol] == k && Code(l, symbol) == First(l, k) + r
  {
    symbol := SymbolOfRank(l, k, r, |l|);
    StartGrows(l, k, 16);
    assert PlacedAt(h.symbols, l, symbol);
  }

  lemma CodeAt(l: seq<nat>, s: seq<bool>, p: nat, symbol: nat)
    requires CodeLengths(l) && Fits(l) && symbol < |l| && 0 < l[symbol] && p + l[symbol] <= |s|
    requires HighFirst(s[p..p + l[symbol]]) == Code(l, symbol)
    ensures Next(l, s, p) == Some(symbol)
  {
    HighUnique(s[p..p + l[symbol]]);
    assert Decodes(l, s, p, symbol);
    NextIs(l, s, p, symbol);
  }

  /** Bits past the codes of their length are no code of that length. */
  lemma NotFound(l: seq<nat>, s: seq<bool>, p: nat, k: nat)
    requires CodeLengths(l) && Fits(l) && 1 <= k <= 15 && p + k <= |s|
    requires HighFirst(s[p..p + k]) >= First(l, k) + Count(l, k)
    ensures forall a: nat :: Decodes(l, s, p, a) ==> l[a] != k
  {
    forall a: nat | Decodes(l, s, p, a) ensures l[a] != k {
      NotThisOne(l, s, p, k, a);
    }
  }

  lemma NotThisOne(l: seq<nat>, s: seq<bool>, p: nat, k: nat, a: nat)
    requires CodeLengths(l) && Fits(l) && p + k <= |s| && Decodes(l, s, p, a)
    requires HighFirst(s[p..p + k]) >= First(l, k) + Count(l, k)
    ensures l[a] != k
  {
    ValueAt(l, s, p, a);
  }
}
