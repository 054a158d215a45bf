/** The deflate format (RFC 1951) as an encoder writes it: tokens, code length runs,
    block headers and blocks, what they expand to, and why what stands in a stream
    can be read in only one way. */
module Deflate {
  import opened Options
  import opened Words
  import opened Bytes
  import opened Huffman
  import opened Reading

  const LENGTH_BASE: seq<nat> := [
    3, 4, 5, 6, 7, 8, 9, 10, 11, 13, 15, 17, 19, 23, 27, 31, 35, 43, 51, 59, 67, 83, 99, 115, 131,
    163, 195, 227, 258]
  const LENGTH_EXTRA: seq<nat> := [
    0, 0, 0, 0, 0, 0, 0, 0, 1, 1, 1, 1, 2, 2, 2, 2, 3, 3, 3, 3, 4, 4, 4, 4, 5, 5, 5, 5, 0]
  const DISTANCE_BASE: seq<nat> := [
    1, 2, 3, 4, 5, 7, 9, 13, 17, 25, 33, 49, 65, 97, 129, 193, 257, 385, 513, 769, 1025, 1537,
    2049, 3073, 4097, 6145, 8193, 12289, 16385, 24577]
  const DISTANCE_EXTRA: seq<nat> := [
    0, 0, 0, 0, 1, 1, 2, 2, 3, 3, 4, 4, 5, 5, 6, 6, 7, 7, 8, 8, 9, 9, 10, 10, 11, 11, 12, 12, 13,
    13]
  /** The order the code length code lengths are sent in (section 3.2.7 of RFC 1951). */
  const CODE_LENGTH_ORDER: seq<nat> := [16, 17, 18, 0, 8, 7, 9, 6, 10, 5, 11, 4, 12, 3, 13, 2, 14, 1, 15]

  lemma TableSizes()
    ensures |LENGTH_BASE| == |LENGTH_EXTRA| == 29 && |DISTANCE_BASE| == |DISTANCE_EXTRA| == 30
    ensures |CODE_LENGTH_ORDER| == 19 && forall i :: 0 <= i < 19 ==> CODE_LENGTH_ORDER[i] < 19
  {
  }

  // ---- numbers ------------------------------------------------------------------------

  /** v stands at p in n bits, low first. */
  predicate NumberAt(s: seq<bool>, p: nat, v: nat, n: nat)
  {
    v < Pow2(n) && StandsAt(s, p, NumberBits(v, n))
  }

  lemma NumberIs(s: seq<bool>, p: nat, v: nat, n: nat)
    ensures NumberAt(s, p, v, n) <==> p + n <= |s| && v == LowFirst(s[p..p + n])
  {
    if p + n <= |s| {
      LowFirstBits(s[p..p + n]);
      if v < Pow2(n) { NumberValue(v, n); }
    }
  }

  lemma NumberUnique(s: seq<bool>, p: nat, v: nat, u: nat, n: nat)
    requires NumberAt(s, p, v, n) && NumberAt(s, p, u, n)
    ensures v == u
  {
    NumberIs(s, p, v, n);
    NumberIs(s, p, u, n);
  }

  lemma FourApart(s: seq<bool>, p: nat, a: seq<bool>, b: seq<bool>, c: seq<bool>, d: seq<bool>)
    ensures StandsAt(s, p, a + (b + (c + d))) <==>
      StandsAt(s, p, a) && StandsAt(s, p + |a|, b) && StandsAt(s, p + |a| + |b|, c)
      && StandsAt(s, p + |a| + |b| + |c|, d)
  {
    StandsApart(s, p, a, b + (c + d));
    StandsApart(s, p + |a|, b, c + d);
    StandsApart(s, p + |a| + |b|, c, d);
  }

  // ---- tokens -------------------------------------------------------------------------

  /** The code lengths of a block: of its literal and length codes, and of its distance
      codes. */
  datatype Codes = Codes(literal: seq<nat>, distance: seq<nat>)

  ghost predicate CodesOk(c: Codes)
  {
    CodeLengths(c.literal) && Fits(c.literal) && CodeLengths(c.distance) && Fits(c.distance)
  }

  datatype Token = Literal(byte: nat) | End | Match(length: nat, lengthExtra: nat, distance: nat, distanceExtra: nat)

  function Symbol(t: Token): nat
  {
    match t
    case Literal(byte) => byte
    case End => 256
    case Match(length, _, _, _) => 257 + length
  }

  function Coded(l: seq<nat>, symbol: nat): (b: seq<bool>)
  {
    if symbol < |l| then CodeBits(l, symbol) else []
  }

  function Extra(table: seq<nat>, i: nat): nat
  {
    if i < |table| then table[i] else 0
  }

  function TokenBits(c: Codes, t: Token): seq<bool>
  {
    match t
    case Match(length, lengthExtra, distance, distanceExtra) =>
      Coded(c.literal, 257 + length) + (NumberBits(lengthExtra, Extra(LENGTH_EXTRA, length))
        + (Coded(c.distance, distance) + NumberBits(distanceExtra, Extra(DISTANCE_EXTRA, distance))))
    case _ => Coded(c.literal, Symbol(t))
  }

  predicate HasCode(l: seq<nat>, symbol: nat)
  {
    symbol < |l| && l[symbol] > 0
  }

  /** The block has codes for the token and its numbers are in range. */
  predicate TokenOk(c: Codes, t: Token)
  {
    && HasCode(c.literal, Symbol(t))
    && (t.Literal? ==> t.byte < 256)
    && (t.Match? ==>
          && t.length < 29 && t.lengthExtra < Pow2(Extra(LENGTH_EXTRA, t.length))
          && t.distance < 30 && HasCode(c.distance, t.distance) && t.distanceExtra < Pow2(Extra(DISTANCE_EXTRA, t.distance)))
  }

  predicate TokenAt(c: Codes, s: seq<bool>, p: nat, t: Token)
  {
    TokenOk(c, t) && StandsAt(s, p, TokenBits(c, t))
  }

  /** Where the parts of a match after its length code begin. */
  function ExtraFrom(c: Codes, p: nat, length: nat): nat
  {
    p + |Coded(c.literal, 257 + length)|
  }

  function DistanceFrom(c: Codes, p: nat, length: nat): nat
  {
    ExtraFrom(c, p, length) + Extra(LENGTH_EXTRA, length)
  }

  function LastFrom(c: Codes, p: nat, length: nat, distance: nat): nat
  {
    DistanceFrom(c, p, length) + |Coded(c.distance, distance)|
  }

  lemma MatchStands(c: Codes, s: seq<bool>, p: nat, t: Token)
    requires t.Match?
    ensures StandsAt(s, p, TokenBits(c, t)) <==>
      && StandsAt(s, p, Coded(c.literal, 257 + t.length))
      && StandsAt(s, ExtraFrom(c, p, t.length), NumberBits(t.lengthExtra, Extra(LENGTH_EXTRA, t.length)))
      && StandsAt(s, DistanceFrom(c, p, t.length), Coded(c.distance, t.distance))
      && StandsAt(s, LastFrom(c, p, t.length, t.distance),
           NumberBits(t.distanceExtra, Extra(DISTANCE_EXTRA, t.distance)))
    ensures p + |TokenBits(c, t)| == LastFrom(c, p, t.length, t.distance) + Extra(DISTANCE_EXTRA, t.distance)
  {
    var length, lengthExtra := Coded(c.literal, 257 + t.length), NumberBits(t.lengthExtra, Extra(LENGTH_EXTRA, t.length));
    var distance, distanceExtra := Coded(c.distance, t.distance), NumberBits(t.distanceExtra, Extra(DISTANCE_EXTRA, t.distance));
    assert TokenBits(c, t) == length + (lengthExtra + (distance + distanceExtra));
    assert ExtraFrom(c, p, t.length) == p + |length|;
    assert DistanceFrom(c, p, t.length) == p + |length| + |lengthExtra|;
    assert LastFrom(c, p, t.length, t.distance) == p + |length| + |lengthExtra| + |distance|;
    FourApart(s, p, length, lengthExtra, distance, distanceExtra);
  }

  lemma CodedAt(l: seq<nat>, s: seq<bool>, p: nat, symbol: nat)
    ensures Decodes(l, s, p, symbol) <==> HasCode(l, symbol) && StandsAt(s, p, Coded(l, symbol))
  {
  }

  /** A match stands at p. */
  predicate MatchAt(c: Codes, s: seq<bool>, p: nat, t: Token)
    requires t.Match?
  {
    && t.length < 29 && t.distance < 30
    && Decodes(c.literal, s, p, 257 + t.length)
    && NumberAt(s, ExtraFrom(c, p, t.length), t.lengthExtra, Extra(LENGTH_EXTRA, t.length))
    && Decodes(c.distance, s, DistanceFrom(c, p, t.length), t.distance)
    && NumberAt(s, LastFrom(c, p, t.length, t.distance), t.distanceExtra, Extra(DISTANCE_EXTRA, t.distance))
  }

  lemma MatchParts(c: Codes, s: seq<bool>, p: nat, t: Token)
    requires t.Match?
    ensures TokenAt(c, s, p, t) <==> MatchAt(c, s, p, t)
  {
    MatchStands(c, s, p, t);
    CodedAt(c.literal, s, p, 257 + t.length);
    CodedAt(c.distance, s, DistanceFrom(c, p, t.length), t.distance);
  }

  lemma TokenSymbol(c: Codes, s: seq<bool>, p: nat, t: Token)
    requires TokenAt(c, s, p, t)
    ensures Decodes(c.literal, s, p, Symbol(t))
  {
    if t.Match? { MatchParts(c, s, p, t); }
  }

  /** Only one token can stand at a place. */
  lemma TokenUnique(c: Codes, s: seq<bool>, p: nat, t: Token, u: Token)
    requires CodesOk(c) && TokenAt(c, s, p, t) && TokenAt(c, s, p, u)
    ensures t == u
  {
    TokenSymbol(c, s, p, t);
    TokenSymbol(c, s, p, u);
    PrefixFree(c.literal, s, p, Symbol(t), Symbol(u));
    if t.Match? {
      assert u.Match? && u.length == t.length;
      MatchUnique(c, s, p, t, u);
    }
  }

  lemma MatchUnique(c: Codes, s: seq<bool>, p: nat, t: Token, u: Token)
    requires CodesOk(c) && TokenAt(c, s, p, t) && TokenAt(c, s, p, u)
    requires t.Match? && u.Match? && t.length == u.length
    ensures t == u
  {
    MatchParts(c, s, p, t);
    MatchParts(c, s, p, u);
    NumberUnique(s, ExtraFrom(c, p, t.length), t.lengthExtra, u.lengthExtra, Extra(LENGTH_EXTRA, t.length));
    PrefixFree(c.distance, s, DistanceFrom(c, p, t.length), t.distance, u.distance);
    NumberUnique(s, LastFrom(c, p, t.length, t.distance), t.distanceExtra, u.distanceExtra,
      Extra(DISTANCE_EXTRA, t.distance));
  }

  // ---- what tokens expand to ------------------------------------------------------------

  /** The last byte n times over, each byte the one `back` before it. */
  function Copied(out: seq<u8>, back: nat, n: nat): (r: seq<u8>)
    requires 1 <= back <= |out|
    ensures |r| == |out| + n && r[..|out|] == out
  {
    if n == 0 then out else var o := Copied(out, back, n - 1); o + [o[|o| - back]]
  }

  lemma RemainderBack(i: nat, back: nat)
    requires 1 <= back <= i
    ensures i % back == (i - back) % back
  {
    QuotientRemainder(i - back, back);
    assert back * ((i - back) / back + 1) == back * ((i - back) / back) + back;
    ModUnique(i, back, (i - back) / back + 1, (i - back) % back);
  }

  lemma {:induction false} CopiedByte(out: seq<u8>, back: nat, n: nat, i: nat)
    requires 1 <= back <= |out| && i < n
    ensures Copied(out, back, n)[|out| + i] == Copied(out, back, n)[|out| + i - back]
  {
    if i < n - 1 {
      CopiedByte(out, back, n - 1, i);
    }
  }

  /** A match repeats the last `back` bytes, over and over when it is longer than they are. */
  lemma {:induction false} CopiedRepeats(out: seq<u8>, back: nat, n: nat, i: nat)
    requires 1 <= back <= |out| && i < n
    ensures Copied(out, back, n)[|out| + i] == out[|out| - back + i % back]
  {
    CopiedByte(out, back, n, i);
    var r := Copied(out, back, n);
    if i < back {
      ModUnique(i, back, 0, i);
      assert r[|out| + i - back] == r[..|out|][|out| + i - back];
    } else {
      CopiedRepeats(out, back, n, i - back);
      RemainderBack(i, back);
    }
  }

  /** What a token makes of the output so far; None when it reaches back too far. */
  function Apply(t: Token, out: seq<u8>): (r: Option<seq<u8>>)
    ensures r.Some? ==> |r.value| >= |out|
  {
    match t
    case Literal(byte) => if byte < 256 then Some(out + [byte as u8]) else None
    case End => Some(out)
    case Match(length, lengthExtra, distance, distanceExtra) =>
      if length < 29 && distance < 30 then
        var back := DISTANCE_BASE[distance] + distanceExtra;
        if 1 <= back <= |out| then Some(Copied(out, back, LENGTH_BASE[length] + lengthExtra)) else None
      else None
  }

  lemma DistancesPositive(i: nat)
    requires i < 30
    ensures DISTANCE_BASE[i] >= 1
  {
  }

  /** A token of the block, and what it makes of the output while that stays within
      the limit. */
  function TokenMeans(c: Codes, limit: nat, t: Token, out: seq<u8>): Option<(bool, seq<u8>)>
  {
    if !TokenOk(c, t) then None
    else
      match Apply(t, out)
      case None => None
      case Some(o) => if t.End? then Some((true, out)) else if |o| <= limit then Some((false, o)) else None
  }

  function TokenWriter(c: Codes, limit: nat): Writer<Token, seq<u8>>
  {
    Writer((p, t) => TokenBits(c, t), (t, out) => TokenMeans(c, limit, t, out))
  }

  lemma TokenItem(c: Codes, limit: nat, s: seq<bool>, p: nat, out: seq<u8>, t: Token, o: Outcome<seq<u8>>)
    ensures Item(TokenWriter(c, limit), s, p, out, t, o) <==>
      TokenAt(c, s, p, t) && TokenMeans(c, limit, t, out) == Some((o.last, o.state)) && o.at == p + |TokenBits(c, t)|
  {
  }

  lemma TokensOneOutcome(c: Codes, limit: nat, s: seq<bool>)
    requires CodesOk(c)
    ensures OneOutcome(TokenWriter(c, limit), s)
  {
    var w := TokenWriter(c, limit);
    forall p: nat, out, t, u, o, q | Item(w, s, p, out, t, o) && Item(w, s, p, out, u, q) ensures o == q {
      TokenItem(c, limit, s, p, out, t, o);
      TokenItem(c, limit, s, p, out, u, q);
      TokenUnique(c, s, p, t, u);
    }
  }

  // ---- code length runs ----------------------------------------------------------------

  datatype Run = Length(value: nat) | Again(more: nat) | Zeros(more: nat) | ManyZeros(more: nat)

  function RunSymbol(r: Run): nat
  {
    match r
    case Length(value) => value
    case Again(_) => 16
    case Zeros(_) => 17
    case ManyZeros(_) => 18
  }

  /** A run's extra number and its width. */
  function RunExtra(r: Run): (nat, nat)
  {
    match r
    case Length(_) => (0, 0)
    case Again(more) => (more, 2)
    case Zeros(more) => (more, 3)
    case ManyZeros(more) => (more, 7)
  }

  function RunBits(l: seq<nat>, r: Run): seq<bool>
  {
    Coded(l, RunSymbol(r)) + NumberBits(RunExtra(r).0, RunExtra(r).1)
  }

  predicate RunOk(l: seq<nat>, r: Run)
  {
    HasCode(l, RunSymbol(r)) && RunExtra(r).0 < Pow2(RunExtra(r).1) && (r.Length? ==> r.value <= 15)
  }

  predicate RunAt(l: seq<nat>, s: seq<bool>, p: nat, r: Run)
  {
    RunOk(l, r) && StandsAt(s, p, RunBits(l, r))
  }

  lemma RunParts(l: seq<nat>, s: seq<bool>, p: nat, r: Run)
    ensures RunAt(l, s, p, r) <==>
      && (r.Length? ==> r.value <= 15) && Decodes(l, s, p, RunSymbol(r))
      && NumberAt(s, p + |Coded(l, RunSymbol(r))|, RunExtra(r).0, RunExtra(r).1)
  {
    StandsApart(s, p, Coded(l, RunSymbol(r)), NumberBits(RunExtra(r).0, RunExtra(r).1));
  }

  lemma RunUnique(l: seq<nat>, s: seq<bool>, p: nat, r: Run, u: Run)
    requires CodeLengths(l) && Fits(l) && RunAt(l, s, p, r) && RunAt(l, s, p, u)
    ensures r == u
  {
    RunParts(l, s, p, r);
    RunParts(l, s, p, u);
    PrefixFree(l, s, p, RunSymbol(r), RunSymbol(u));
    NumberUnique(s, p + |Coded(l, RunSymbol(r))|, RunExtra(r).0, RunExtra(u).0, RunExtra(r).1);
  }

  /** The lengths a run adds; None for a repeat of nothing. */
  function RunLengths(r: Run, lengths: seq<nat>): Option<seq<nat>>
  {
    match r
    case Length(value) => Some([value])
    case Again(more) => if lengths == [] then None else Some(seq(3 + more, i => lengths[|lengths| - 1]))
    case Zeros(more) => Some(seq(3 + more, i => 0))
    case ManyZeros(more) => Some(seq(11 + more, i => 0))
  }

  /** The run that fills all lengths is the last. */
  function RunMeans(l: seq<nat>, total: nat, r: Run, lengths: seq<nat>): Option<(bool, seq<nat>)>
  {
    if !RunOk(l, r) then None
    else
      match RunLengths(r, lengths)
      case None => None
      case Some(added) =>
        if |lengths| + |added| > total then None else Some((|lengths| + |added| == total, lengths + added))
  }

  function RunWriter(l: seq<nat>, total: nat): Writer<Run, seq<nat>>
  {
    Writer((p, r) => RunBits(l, r), (r, lengths) => RunMeans(l, total, r, lengths))
  }

  lemma RunItem(l: seq<nat>, total: nat, s: seq<bool>, p: nat, lengths: seq<nat>, r: Run, o: Outcome<seq<nat>>)
    ensures Item(RunWriter(l, total), s, p, lengths, r, o) <==>
      RunAt(l, s, p, r) && RunMeans(l, total, r, lengths) == Some((o.last, o.state)) && o.at == p + |RunBits(l, r)|
  {
  }

  lemma RunsOneOutcome(l: seq<nat>, total: nat, s: seq<bool>)
    requires CodeLengths(l) && Fits(l)
    ensures OneOutcome(RunWriter(l, total), s)
  {
    var w := RunWriter(l, total);
    forall p: nat, lengths, r, u, o, q | Item(w, s, p, lengths, r, o) && Item(w, s, p, lengths, u, q) ensures o == q {
      RunItem(l, total, s, p, lengths, r, o);
      RunItem(l, total, s, p, lengths, u, q);
      RunUnique(l, s, p, r, u);
    }
  }

  /** The lengths the runs make are all there and all lengths. */
  lemma {:induction false} RunsMake(l: seq<nat>, total: nat, runs: seq<Run>, lengths: seq<nat>)
    requires Meaning(RunWriter(l, total), runs, lengths).Some? && |lengths| <= total
    requires forall i :: 0 <= i < |lengths| ==> lengths[i] <= 15
    ensures var all := Meaning(RunWriter(l, total), runs, lengths).value;
            |all| == total && forall i :: 0 <= i < total ==> all[i] <= 15
  {
    var m := RunMeans(l, total, runs[0], lengths).value;
    assert RunWriter(l, total).means(runs[0], lengths) == Some(m);
    if !m.0 { RunsMake(l, total, runs[1..], m.1); }
  }

  // ---- block headers ----------------------------------------------------------------------

  /** How many codes of each kind a block has, as they are sent: less 257, 1 and 4; and
      the lengths of the code length code in the order they are sent in. */
  datatype Sizes = Sizes(literals: nat, distances: nat, sent: nat, order: seq<nat>)

  datatype Header = Fixed | Dynamic(sizes: Sizes, runs: seq<Run>)

  /** The code length code's lengths from the order they are sent in. */
  function Arranged(order: seq<nat>): (l: seq<nat>)
    requires |order| <= 19
    ensures |l| == 19
  {
    if order == [] then seq(19, i => 0)
    else Arranged(order[..|order| - 1])[CODE_LENGTH_ORDER[|order| - 1] := order[|order| - 1]]
  }

  lemma {:induction false} ArrangedLengths(order: seq<nat>)
    requires |order| <= 19 && forall i :: 0 <= i < |order| ==> order[i] < 8
    ensures CodeLengths(Arranged(order))
  {
    if order != [] {
      ArrangedLengths(order[..|order| - 1]);
      TableSizes();
    }
  }

  function OrderBits(order: seq<nat>): (b: seq<bool>)
    ensures |b| == 3 * |order|
  {
    if order == [] then [] else OrderBits(order[..|order| - 1]) + NumberBits(order[|order| - 1], 3)
  }

  /** The lengths stand at p, three bits each. */
  predicate OrderAt(s: seq<bool>, p: nat, order: seq<nat>)
  {
    StandsAt(s, p, OrderBits(order)) && forall i :: 0 <= i < |order| ==> order[i] < 8
  }

  lemma OrderPush(s: seq<bool>, p: nat, order: seq<nat>, n: nat)
    ensures OrderAt(s, p, order + [n]) <==> OrderAt(s, p, order) && NumberAt(s, p + 3 * |order|, n, 3)
  {
    var all := order + [n];
    assert all[..|order|] == order && all[|order|] == n;
    assert Pow2(3) == 8 by { assert Pow2(2) == 4 by { assert Pow2(1) == 2; } }
    StandsApart(s, p, OrderBits(order), NumberBits(n, 3));
  }

  lemma {:induction false} OrderUnique(s: seq<bool>, p: nat, order: seq<nat>, other: seq<nat>)
    requires OrderAt(s, p, order) && OrderAt(s, p, other) && |order| == |other|
    ensures order == other
  {
    if order != [] {
      var n := |order| - 1;
      assert order == order[..n] + [order[n]] && other == other[..n] + [other[n]];
      OrderPush(s, p, order[..n], order[n]);
      OrderPush(s, p, other[..n], other[n]);
      OrderUnique(s, p, order[..n], other[..n]);
      NumberUnique(s, p + 3 * n, order[n], other[n], 3);
    }
  }

  /** The lengths of the fixed codes (section 3.2.6 of RFC 1951). */
  function FixedCodes(): Codes
  {
    Codes(seq(288, i => if i < 144 then 8 else if i < 256 then 9 else if i < 280 then 7 else 8), seq(30, i => 5))
  }

  function RunsFrom(p: nat, z: Sizes): nat
  {
    p + 14 + 3 * |z.order|
  }

  function OrderLengths(z: Sizes): seq<nat>
  {
    if |z.order| <= 19 then Arranged(z.order) else []
  }

  function Total(z: Sizes): nat
  {
    z.literals + 257 + (z.distances + 1)
  }

  function Runs(z: Sizes): Writer<Run, seq<nat>>
  {
    RunWriter(OrderLengths(z), Total(z))
  }

  function SizesBits(z: Sizes): (b: seq<bool>)
    ensures |b| == 14 + 3 * |z.order|
  {
    NumberBits(z.literals, 5) + (NumberBits(z.distances, 5) + (NumberBits(z.sent, 4) + OrderBits(z.order)))
  }

  function HeaderBits(p: nat, h: Header): seq<bool>
  {
    match h
    case Fixed => []
    case Dynamic(z, runs) => SizesBits(z) + Encoded(Runs(z), RunsFrom(p, z), runs)
  }

  predicate SizesOk(z: Sizes)
  {
    && z.literals + 257 <= 286 && z.distances + 1 <= 30 && z.sent < 16 && |z.order| == z.sent + 4 <= 19
    && (forall i :: 0 <= i < |z.order| ==> z.order[i] < 8) && Fits(OrderLengths(z))
  }

  /** The codes a header states; None when it states none a block may have. */
  function HeaderCodes(h: Header): Option<Codes>
  {
    match h
    case Fixed => Some(FixedCodes())
    case Dynamic(z, runs) =>
      if !SizesOk(z) then None
      else
        match Meaning(Runs(z), runs, [])
        case None => None
        case Some(all) => Parted(z.literals + 257, all)
  }

  /** The lengths of both codes, one after the other, as two. */
  function Parted(literals: nat, all: seq<nat>): (r: Option<Codes>)
    ensures r.Some? ==> Fits(r.value.literal) && Fits(r.value.distance)
  {
    if 256 < literals <= |all| && all[256] > 0 && Fits(all[..literals]) && Fits(all[literals..])
    then Some(Codes(all[..literals], all[literals..]))
    else None
  }

  lemma {:induction false} CountSame(l: seq<nat>, k: nat, v: nat, a: nat, b: nat)
    requires a <= b <= |l| && forall i :: a <= i < b ==> l[i] == v
    ensures CountUpTo(l, k, b) == CountUpTo(l, k, a) + (if v == k then b - a else 0)
  {
    if a < b { CountSame(l, k, v, a, b - 1); }
  }

  lemma FixedCount(k: nat)
    requires k > 0
    ensures Count(FixedCodes().literal, k) == if k == 7 then 24 else if k == 8 then 152 else if k == 9 then 112 else 0
    ensures Count(FixedCodes().distance, k) == if k == 5 then 30 else 0
  {
    var l, d := FixedCodes().literal, FixedCodes().distance;
    CountSame(l, k, 8, 0, 144);
    CountSame(l, k, 9, 144, 256);
    CountSame(l, k, 7, 256, 280);
    CountSame(l, k, 8, 280, 288);
    CountSame(d, k, 5, 0, 30);
  }

  lemma FirstNext(l: seq<nat>, k: nat, count: nat)
    requires Count(l, k) == count
    ensures First(l, k + 1) == 2 * (First(l, k) + count)
  {
  }

  /** The first codes of the fixed codes: the literal codes use all codes there are. */
  lemma {:induction false} FixedFirst(k: nat)
    requires 1 <= k
    ensures First(FixedCodes().literal, k) ==
      if k <= 7 then 0 else if k == 8 then 48 else if k == 9 then 400 else Pow2(k)
    ensures First(FixedCodes().distance, k) == if k <= 5 then 0 else Pow2(k) - 2 * Pow2(k - 5)
  {
    var c := FixedCodes();
    if k > 1 {
      FixedFirst(k - 1);
      FixedCount(k - 1);
      FirstNext(c.literal, k - 1, Count(c.literal, k - 1));
      FirstNext(c.distance, k - 1, Count(c.distance, k - 1));
      FixedPowers(k);
    } else {
      assert First(c.literal, 0) == 0 && First(c.distance, 0) == 0;
      assert Count(c.literal, 0) == 0 && Count(c.distance, 0) == 0;
    }
  }

  lemma FixedPowers(k: nat)
    ensures Pow2(10) == 1024 && Pow2(6) == 64 && Pow2(5) == 32 && Pow2(7) == 128 && Pow2(8) == 256 && Pow2(9) == 512
    ensures Pow2(1) == 2 && Pow2(0) == 1
    ensures k > 0 ==> Pow2(k) == 2 * Pow2(k - 1)
    ensures k > 5 ==> Pow2(k - 5) == 2 * Pow2(k - 6)
  {
    assert Pow2(1) == 2;
    assert Pow2(2) == 4;
    assert Pow2(3) == 8;
    assert Pow2(4) == 16;
    assert Pow2(5) == 32;
    assert Pow2(6) == 64;
    assert Pow2(7) == 128;
    assert Pow2(8) == 256;
    assert Pow2(9) == 512;
  }

  lemma FixedFits()
    ensures CodesOk(FixedCodes())
  {
    var c := FixedCodes();
    forall k | 1 <= k <= 15 ensures FitsAt(c.literal, k) && FitsAt(c.distance, k) {
      FixedCount(k);
      FixedFirst(k);
      FixedPowers(k);
    }
  }

  lemma OrderLengthsOk(z: Sizes)
    requires SizesOk(z)
    ensures CodeLengths(OrderLengths(z)) && Fits(OrderLengths(z))
  {
    ArrangedLengths(z.order);
  }

  lemma HeaderCodesOk(h: Header)
    requires HeaderCodes(h).Some?
    ensures CodesOk(HeaderCodes(h).value)
  {
    match h
    case Fixed => FixedFits();
    case Dynamic(z, runs) => RunsMake(OrderLengths(z), Total(z), runs, []);
  }

  predicate SizesAt(s: seq<bool>, p: nat, z: Sizes)
  {
    SizesOk(z) && StandsAt(s, p, SizesBits(z))
  }

  lemma SizesParts(s: seq<bool>, p: nat, z: Sizes)
    ensures SizesAt(s, p, z) <==>
      && SizesOk(z) && NumberAt(s, p, z.literals, 5) && NumberAt(s, p + 5, z.distances, 5)
      && NumberAt(s, p + 10, z.sent, 4) && OrderAt(s, p + 14, z.order)
  {
    var a, b, d, e := NumberBits(z.literals, 5), NumberBits(z.distances, 5), NumberBits(z.sent, 4), OrderBits(z.order);
    FourApart(s, p, a, b, d, e);
    FixedPowers(5);
  }

  lemma SizesUnique(s: seq<bool>, p: nat, z: Sizes, y: Sizes)
    requires SizesAt(s, p, z) && SizesAt(s, p, y)
    ensures z == y
  {
    SizesParts(s, p, z);
    SizesParts(s, p, y);
    NumberUnique(s, p, z.literals, y.literals, 5);
    NumberUnique(s, p + 5, z.distances, y.distances, 5);
    NumberUnique(s, p + 10, z.sent, y.sent, 4);
    OrderUnique(s, p + 14, z.order, y.order);
  }

  /** A header stands at p, ends at q and states c. */
  predicate HeaderAt(s: seq<bool>, p: nat, h: Header, c: Codes, q: nat)
  {
    StandsAt(s, p, HeaderBits(p, h)) && q == p + |HeaderBits(p, h)| && HeaderCodes(h) == Some(c)
  }

  /** The sizes stand at p, and runs after them that make `all`. */
  predicate DynamicAt(s: seq<bool>, p: nat, z: Sizes, runs: seq<Run>, all: seq<nat>, q: nat)
  {
    SizesAt(s, p, z) && Written(Runs(z), s, RunsFrom(p, z), [], runs, all, q)
  }

  lemma HeaderStands(s: seq<bool>, p: nat, z: Sizes, runs: seq<Run>)
    ensures StandsAt(s, p, HeaderBits(p, Dynamic(z, runs))) <==>
      StandsAt(s, p, SizesBits(z)) && StandsAt(s, RunsFrom(p, z), Encoded(Runs(z), RunsFrom(p, z), runs))
    ensures p + |HeaderBits(p, Dynamic(z, runs))| == RunsFrom(p, z) + |Encoded(Runs(z), RunsFrom(p, z), runs)|
  {
    StandsApart(s, p, SizesBits(z), Encoded(Runs(z), RunsFrom(p, z), runs));
  }

  lemma DynamicCodes(z: Sizes, runs: seq<Run>)
    ensures HeaderCodes(Dynamic(z, runs)) ==
      if SizesOk(z) && Meaning(Runs(z), runs, []).Some? then Parted(z.literals + 257, Meaning(Runs(z), runs, []).value)
      else None
  {
  }

  /** The lengths a header's runs make. */
  lemma HeaderMakes(s: seq<bool>, p: nat, z: Sizes, runs: seq<Run>, c: Codes, q: nat) returns (all: seq<nat>)
    requires HeaderAt(s, p, Dynamic(z, runs), c, q)
    ensures DynamicAt(s, p, z, runs, all, q) && Parted(z.literals + 257, all) == Some(c)
  {
    HeaderStands(s, p, z, runs);
    DynamicCodes(z, runs);
    all := Meaning(Runs(z), runs, []).value;
  }

  lemma HeaderMade(s: seq<bool>, p: nat, z: Sizes, runs: seq<Run>, all: seq<nat>, c: Codes, q: nat)
    requires DynamicAt(s, p, z, runs, all, q) && Parted(z.literals + 257, all) == Some(c)
    ensures HeaderAt(s, p, Dynamic(z, runs), c, q)
  {
    assert HeaderCodes(Dynamic(z, runs)) == Some(c) by { DynamicCodes(z, runs); }
    assert StandsAt(s, p, HeaderBits(p, Dynamic(z, runs))) && q == p + |HeaderBits(p, Dynamic(z, runs))| by {
      HeaderStands(s, p, z, runs);
    }
  }

  lemma RunsUnique(s: seq<bool>, p: nat, z: Sizes, runs: seq<Run>, all: seq<nat>, q: nat, others: seq<Run>,
        other: seq<nat>, r: nat)
    requires DynamicAt(s, p, z, runs, all, q) && DynamicAt(s, p, z, others, other, r)
    ensures all == other && q == r
  {
    OrderLengthsOk(z);
    RunsOneOutcome(OrderLengths(z), Total(z), s);
    MeansOneThing(Runs(z), s, RunsFrom(p, z), [], runs, all, q, others, other, r);
  }

  predicate StatedBy(s: seq<bool>, p: nat, c: Codes, q: nat, z: Sizes, runs: seq<Run>, all: seq<nat>)
  {
    DynamicAt(s, p, z, runs, all, q) && Parted(z.literals + 257, all) == Some(c)
  }

  /** Sizes and runs at p state c and end at q. */
  ghost predicate Stated(s: seq<bool>, p: nat, c: Codes, q: nat)
  {
    exists z, runs, all :: StatedBy(s, p, c, q, z, runs, all)
  }

  lemma IsStated(s: seq<bool>, p: nat, z: Sizes, runs: seq<Run>, c: Codes, q: nat)
    requires HeaderAt(s, p, Dynamic(z, runs), c, q)
    ensures Stated(s, p, c, q)
  {
    var all := HeaderMakes(s, p, z, runs, c, q);
    assert StatedBy(s, p, c, q, z, runs, all);
  }

  lemma StatedUnique(s: seq<bool>, p: nat, c: Codes, q: nat, d: Codes, r: nat)
    requires Stated(s, p, c, q) && Stated(s, p, d, r)
    ensures c == d && q == r
  {
    var z, runs, all :| StatedBy(s, p, c, q, z, runs, all);
    var y, others, other :| StatedBy(s, p, d, r, y, others, other);
    SizesUnique(s, p, z, y);
    SameSizes(s, p, c, q, d, r, z, runs, all, others, other);
  }

  lemma SameSizes(s: seq<bool>, p: nat, c: Codes, q: nat, d: Codes, r: nat, z: Sizes, runs: seq<Run>, all: seq<nat>,
        others: seq<Run>, other: seq<nat>)
    requires StatedBy(s, p, c, q, z, runs, all) && StatedBy(s, p, d, r, z, others, other)
    ensures c == d && q == r
  {
    RunsUnique(s, p, z, runs, all, q, others, other, r);
  }

  /** Headers of one kind at one place state the same codes and end at one place. */
  lemma HeaderUnique(s: seq<bool>, p: nat, h: Header, c: Codes, q: nat, g: Header, d: Codes, r: nat)
    requires HeaderAt(s, p, h, c, q) && HeaderAt(s, p, g, d, r) && h.Dynamic? == g.Dynamic?
    ensures c == d && q == r
  {
    if h.Dynamic? {
      IsStated(s, p, h.sizes, h.runs, c, q);
      IsStated(s, p, g.sizes, g.runs, d, r);
      StatedUnique(s, p, c, q, d, r);
    }
  }

  // ---- blocks ---------------------------------------------------------------------------------

  /** A stored block is padded to a whole byte with the low bits of `pad`. */
  datatype Content = Stored(pad: nat, bytes: seq<u8>) | Packed(header: Header, tokens: seq<Token>)

  datatype Block = Block(last: bool, content: Content)

  function Kind(x: Content): nat
  {
    match x
    case Stored(_, _) => 0
    case Packed(header, _) => if header.Fixed? then 1 else 2
  }

  /** The first whole byte from bit p. */
  function ByteFrom(p: nat): (a: nat)
    ensures p <= 8 * a < p + 8
  {
    (p + 7) / 8
  }

  /** The length and its complement, low byte first, then the bytes. */
  function StoredBytes(bytes: seq<u8>): (r: seq<u8>)
    ensures |r| == 4 + |bytes|
  {
    LittleBytes(|bytes|, 2) + LittleBytes(if |bytes| <= 0xffff then 0xffff - |bytes| else 0, 2) + bytes
  }

  function ContentBits(p: nat, x: Content): seq<bool>
  {
    match x
    case Stored(pad, bytes) => NumberBits(pad, 8 * ByteFrom(p) - p) + Stream(StoredBytes(bytes))
    case Packed(header, tokens) => PackedBits(p, HeaderBits(p, header), HeaderCodes(header), tokens)
  }

  /** A header, then tokens in its codes. */
  function PackedBits(p: nat, head: seq<bool>, codes: Option<Codes>, ts: seq<Token>): seq<bool>
  {
    match codes
    case None => head
    case Some(c) => head + Encoded(TokenWriter(c, 0), p + |head|, ts)
  }

  function BlockBits(p: nat, b: Block): seq<bool>
  {
    [b.last] + (NumberBits(Kind(b.content), 2) + ContentBits(p + 3, b.content))
  }

  /** The output after a block; None when the block is not one or goes past the limit. */
  function ContentMeans(limit: nat, x: Content, out: seq<u8>): Option<seq<u8>>
  {
    match x
    case Stored(_, bytes) => if |bytes| <= 0xffff && |out| + |bytes| <= limit then Some(out + bytes) else None
    case Packed(header, tokens) => PackedMeans(limit, HeaderCodes(header), tokens, out)
  }

  function PackedMeans(limit: nat, codes: Option<Codes>, ts: seq<Token>, out: seq<u8>): Option<seq<u8>>
  {
    match codes
    case None => None
    case Some(c) => Meaning(TokenWriter(c, limit), ts, out)
  }

  function BlockMeans(limit: nat, b: Block, out: seq<u8>): Option<(bool, seq<u8>)>
  {
    match ContentMeans(limit, b.content, out)
    case None => None
    case Some(o) => Some((b.last, o))
  }

  function BlockWriter(limit: nat): Writer<Block, seq<u8>>
  {
    Writer((p, b) => BlockBits(p, b), (b, out) => BlockMeans(limit, b, out))
  }

  /** A block's content stands at p, ends at q and makes o of the output. */
  ghost predicate ContentAt(s: seq<bool>, p: nat, limit: nat, x: Content, out: seq<u8>, o: seq<u8>, q: nat)
  {
    StandsAt(s, p, ContentBits(p, x)) && q == p + |ContentBits(p, x)| && ContentMeans(limit, x, out) == Some(o)
  }

  lemma BlockStands(s: seq<bool>, p: nat, b: Block)
    ensures StandsAt(s, p, BlockBits(p, b)) <==>
      && p < |s| && s[p] == b.last && StandsAt(s, p + 1, NumberBits(Kind(b.content), 2))
      && StandsAt(s, p + 3, ContentBits(p + 3, b.content))
    ensures |BlockBits(p, b)| == 3 + |ContentBits(p + 3, b.content)|
  {
    ThreeApart(s, p, b.last, NumberBits(Kind(b.content), 2), ContentBits(p + 3, b.content));
  }

  lemma ThreeApart(s: seq<bool>, p: nat, last: bool, kind: seq<bool>, rest: seq<bool>)
    ensures StandsAt(s, p, [last] + (kind + rest)) <==>
      p < |s| && s[p] == last && StandsAt(s, p + 1, kind) && StandsAt(s, p + 1 + |kind|, rest)
  {
    StandsApart(s, p, [last], kind + rest);
    StandsApart(s, p + 1, kind, rest);
    assert p < |s| ==> s[p..p + 1] == [s[p]];
  }

  lemma BlockItem(limit: nat, s: seq<bool>, p: nat, out: seq<u8>, b: Block, o: Outcome<seq<u8>>)
    ensures Item(BlockWriter(limit), s, p, out, b, o) <==>
      && p < |s| && s[p] == b.last == o.last && NumberAt(s, p + 1, Kind(b.content), 2)
      && ContentAt(s, p + 3, limit, b.content, out, o.state, o.at)
  {
    BlockStands(s, p, b);
    FixedPowers(2);
  }

  // ---- only one block can stand at a place ----------------------------------------------------

  lemma {:induction false} StreamAppend(x: seq<u8>, y: seq<u8>)
    ensures Stream(x + y) == Stream(x) + Stream(y)
  {
    if x == [] {
      assert x + y == y;
    } else {
      assert (x + y)[1..] == x[1..] + y;
      StreamAppend(x[1..], y);
    }
  }

  lemma {:induction false} StreamInjective(x: seq<u8>, y: seq<u8>)
    requires Stream(x) == Stream(y)
    ensures x == y
  {
    if x != [] {
      assert |x| == |y|;
      var a, b := NumberBits(x[0] as nat, 8), NumberBits(y[0] as nat, 8);
      assert a == Stream(x)[..8] == Stream(y)[..8] == b;
      assert Stream(x[1..]) == Stream(x)[8..] == Stream(y)[8..] == Stream(y[1..]);
      FixedPowers(8);
      NumberValue(x[0] as nat, 8);
      NumberValue(y[0] as nat, 8);
      StreamInjective(x[1..], y[1..]);
    }
  }

  lemma StreamMiddle(x: seq<u8>, y: seq<u8>, z: seq<u8>)
    ensures |Stream(x + y + z)| == 8 * |x| + 8 * |y| + 8 * |z|
    ensures Stream(x + y + z)[8 * |x|..8 * |x| + 8 * |y|] == Stream(y)
  {
    StreamAppend(x + y, z);
    StreamAppend(x, y);
  }

  lemma Split3<T>(s: seq<T>, a: nat, b: nat)
    requires a <= b <= |s|
    ensures s == s[..a] + s[a..b] + s[b..]
  {
  }

  lemma StreamSlice(data: seq<u8>, a: nat, b: nat)
    requires a <= b <= |data|
    ensures Stream(data)[8 * a..8 * b] == Stream(data[a..b])
  {
    Split3(data, a, b);
    StreamMiddle(data[..a], data[a..b], data[b..]);
  }

  /** Bytes stand in a stream from a whole byte on when they stand in the data. */
  lemma StreamStands(data: seq<u8>, a: nat, x: seq<u8>)
    ensures StandsAt(Stream(data), 8 * a, Stream(x)) <==> BytesAt(data, a, x)
  {
    StandsIs(Stream(data), 8 * a, 8 * (a + |x|), Stream(x));
    if a + |x| <= |data| {
      StreamSlice(data, a, a + |x|);
      StreamsEqual(data[a..a + |x|], x);
    }
  }

  lemma StandsIs(s: seq<bool>, p: nat, q: nat, x: seq<bool>)
    requires q == p + |x|
    ensures StandsAt(s, p, x) <==> q <= |s| && s[p..q] == x
  {
  }

  lemma StreamsEqual(x: seq<u8>, y: seq<u8>)
    ensures Stream(x) == Stream(y) <==> x == y
  {
    if Stream(x) == Stream(y) { StreamInjective(x, y); }
  }

  lemma Padded(s: seq<bool>, p: nat, at: nat, x: seq<bool>, y: seq<bool>)
    requires p + |x| == at
    ensures StandsAt(s, p, x + y) <==> StandsAt(s, p, x) && StandsAt(s, at, y)
  {
    StandsApart(s, p, x, y);
  }

  /** The padding, and the bytes from the next whole byte on. */
  predicate StoredAt(data: seq<u8>, p: nat, pad: nat, bytes: seq<u8>)
  {
    && StandsAt(Stream(data), p, NumberBits(pad, 8 * ByteFrom(p) - p))
    && BytesAt(data, ByteFrom(p), StoredBytes(bytes))
  }

  predicate BytesAt(data: seq<u8>, a: nat, x: seq<u8>)
  {
    a + |x| <= |data| && data[a..a + |x|] == x
  }

  lemma StoredParts(data: seq<u8>, p: nat, pad: nat, bytes: seq<u8>)
    ensures StandsAt(Stream(data), p, ContentBits(p, Stored(pad, bytes))) <==> StoredAt(data, p, pad, bytes)
    ensures p + |ContentBits(p, Stored(pad, bytes))| == 8 * (ByteFrom(p) + 4 + |bytes|)
  {
    Padded(Stream(data), p, 8 * ByteFrom(p), NumberBits(pad, 8 * ByteFrom(p) - p), Stream(StoredBytes(bytes)));
    StreamStands(data, ByteFrom(p), StoredBytes(bytes));
  }

  /** The length field of a stored block. */
  lemma LengthField(data: seq<u8>, a: nat, bytes: seq<u8>)
    requires |bytes| <= 0xffff
    ensures BytesAt(data, a, StoredBytes(bytes)) <==>
      && a + 4 + |bytes| <= |data|
      && Little(data[a..a + 2]) == |bytes| && Little(data[a + 2..a + 4]) == 0xffff - |bytes|
      && data[a + 4..a + 4 + |bytes|] == bytes
  {
    var n := |bytes|;
    if a + 4 + n <= |data| {
      TwoBytes(data[a..a + 2], n);
      TwoBytes(data[a + 2..a + 4], 0xffff - n);
      FieldsApart(data[a..a + 4 + n], LittleBytes(n, 2), LittleBytes(0xffff - n, 2), bytes);
      SubSlices(data, a, a + 4 + n);
    }
  }

  lemma SubSlices<T>(s: seq<T>, a: nat, b: nat)
    requires a + 4 <= b <= |s|
    ensures s[a..b][..2] == s[a..a + 2] && s[a..b][2..4] == s[a + 2..a + 4] && s[a..b][4..] == s[a + 4..b]
  {
    assert forall i :: 0 <= i < 2 ==> s[a..b][..2][i] == s[a..a + 2][i] && s[a..b][2..4][i] == s[a + 2..a + 4][i];
    assert forall i :: 0 <= i < b - a - 4 ==> s[a..b][4..][i] == s[a + 4..b][i];
  }

  lemma FieldsApart(y: seq<u8>, n: seq<u8>, m: seq<u8>, x: seq<u8>)
    requires |n| == |m| == 2 && |y| == 4 + |x|
    ensures y == n + m + x <==> y[..2] == n && y[2..4] == m && y[4..] == x
  {
    assert y == y[..2] + y[2..4] + y[4..];
  }

  lemma TwoBytes(x: seq<u8>, n: nat)
    requires |x| == 2 && n <= 0xffff
    ensures Little(x) == n <==> x == LittleBytes(n, 2)
  {
    LittleRoundTrip(n, 2);
    assert Pow2(8 * 2) == 0x1_0000 by { FixedPowers(16); }
    if Little(x) == n { WrittenOnce(x, n); }
  }

  /** Stored blocks at one place hold the same bytes. */
  lemma StoredUnique(data: seq<u8>, p: nat, pad: nat, bytes: seq<u8>, pad': nat, other: seq<u8>)
    requires |bytes| <= 0xffff && |other| <= 0xffff
    requires StandsAt(Stream(data), p, ContentBits(p, Stored(pad, bytes)))
    requires StandsAt(Stream(data), p, ContentBits(p, Stored(pad', other)))
    ensures bytes == other
  {
    StoredParts(data, p, pad, bytes);
    StoredParts(data, p, pad', other);
    LengthField(data, ByteFrom(p), bytes);
    LengthField(data, ByteFrom(p), other);
  }

  lemma PackedStands(s: seq<bool>, p: nat, head: seq<bool>, c: Codes, m: nat, ts: seq<Token>, e: seq<bool>)
    requires m == p + |head| && e == Encoded(TokenWriter(c, 0), m, ts)
    ensures StandsAt(s, p, PackedBits(p, head, Some(c), ts)) <==> StandsAt(s, p, head) && StandsAt(s, m, e)
    ensures |PackedBits(p, head, Some(c), ts)| == |head| + |e|
  {
    Padded(s, p, m, head, e);
  }

  /** The bits of a compressed block stand at p, end at q and make o of the output. */
  predicate PackedIs(s: seq<bool>, p: nat, limit: nat, head: seq<bool>, codes: Option<Codes>, ts: seq<Token>,
        out: seq<u8>, o: seq<u8>, q: nat)
  {
    && StandsAt(s, p, PackedBits(p, head, codes, ts)) && q == p + |PackedBits(p, head, codes, ts)|
    && PackedMeans(limit, codes, ts, out) == Some(o)
  }

  lemma PackedWritten(s: seq<bool>, p: nat, limit: nat, head: seq<bool>, c: Codes, m: nat, ts: seq<Token>,
        out: seq<u8>, o: seq<u8>, q: nat)
    requires m == p + |head|
    ensures PackedIs(s, p, limit, head, Some(c), ts, out, o, q)
      <==> StandsAt(s, p, head) && Written(TokenWriter(c, limit), s, m, out, ts, o, q)
  {
    LimitNotWritten(c, limit, m, ts);
    PackedStands(s, p, head, c, m, ts, Encoded(TokenWriter(c, limit), m, ts));
  }

  /** A compressed block: its header, then its tokens. */
  lemma PackedParts(s: seq<bool>, p: nat, limit: nat, h: Header, ts: seq<Token>, out: seq<u8>, o: seq<u8>, q: nat)
    returns (c: Codes, m: nat)
    requires PackedIs(s, p, limit, HeaderBits(p, h), HeaderCodes(h), ts, out, o, q)
    ensures HeaderAt(s, p, h, c, m) && Written(TokenWriter(c, limit), s, m, out, ts, o, q)
  {
    c, m := HeaderCodes(h).value, p + |HeaderBits(p, h)|;
    PackedWritten(s, p, limit, HeaderBits(p, h), c, m, ts, out, o, q);
  }

  lemma PackedAt(s: seq<bool>, p: nat, limit: nat, h: Header, c: Codes, m: nat, ts: seq<Token>, out: seq<u8>, o: seq<u8>, q: nat)
    requires HeaderAt(s, p, h, c, m) && Written(TokenWriter(c, limit), s, m, out, ts, o, q)
    ensures PackedIs(s, p, limit, HeaderBits(p, h), HeaderCodes(h), ts, out, o, q)
  {
    PackedWritten(s, p, limit, HeaderBits(p, h), c, m, ts, out, o, q);
  }

  /** What stands of a compressed block is all that its content is. */
  lemma ContentPacked(s: seq<bool>, p: nat, limit: nat, h: Header, ts: seq<Token>, out: seq<u8>, o: seq<u8>, q: nat)
    ensures ContentAt(s, p, limit, Packed(h, ts), out, o, q)
      <==> PackedIs(s, p, limit, HeaderBits(p, h), HeaderCodes(h), ts, out, o, q)
  {
  }

  /** The limit is the reader's, and changes nothing that is written. */
  lemma LimitNotWritten(c: Codes, limit: nat, p: nat, ts: seq<Token>)
    ensures Encoded(TokenWriter(c, limit), p, ts) == Encoded(TokenWriter(c, 0), p, ts)
  {
    SameEncoding(TokenWriter(c, limit), TokenWriter(c, 0), p, ts);
  }

  /** Compressed blocks of one kind at one place make the same output. */
  lemma PackedUnique(s: seq<bool>, p: nat, limit: nat, out: seq<u8>, h: Header, ts: seq<Token>, o: seq<u8>, q: nat,
        g: Header, us: seq<Token>, u: seq<u8>, r: nat)
    requires ContentAt(s, p, limit, Packed(h, ts), out, o, q) && ContentAt(s, p, limit, Packed(g, us), out, u, r)
    requires h.Dynamic? == g.Dynamic?
    ensures o == u && q == r
  {
    ContentPacked(s, p, limit, h, ts, out, o, q);
    ContentPacked(s, p, limit, g, us, out, u, r);
    var c, m := PackedParts(s, p, limit, h, ts, out, o, q);
    var d, n := PackedParts(s, p, limit, g, us, out, u, r);
    BodiesUnique(s, p, limit, out, h, c, m, ts, o, q, g, d, n, us, u, r);
  }

  lemma BodiesUnique(s: seq<bool>, p: nat, limit: nat, out: seq<u8>, h: Header, c: Codes, m: nat, ts: seq<Token>,
        o: seq<u8>, q: nat, g: Header, d: Codes, n: nat, us: seq<Token>, u: seq<u8>, r: nat)
    requires HeaderAt(s, p, h, c, m) && HeaderAt(s, p, g, d, n) && h.Dynamic? == g.Dynamic?
    requires Written(TokenWriter(c, limit), s, m, out, ts, o, q) && Written(TokenWriter(d, limit), s, n, out, us, u, r)
    ensures o == u && q == r
  {
    HeaderUnique(s, p, h, c, m, g, d, n);
    HeaderCodesOk(h);
    TokensOneOutcome(c, limit, s);
    MeansOneThing(TokenWriter(c, limit), s, m, out, ts, o, q, us, u, r);
  }

  lemma ContentUnique(data: seq<u8>, p: nat, limit: nat, out: seq<u8>, x: Content, o: seq<u8>, q: nat,
        y: Content, u: seq<u8>, r: nat)
    requires ContentAt(Stream(data), p, limit, x, out, o, q) && ContentAt(Stream(data), p, limit, y, out, u, r)
    requires Kind(x) == Kind(y)
    ensures o == u && q == r
  {
    if x.Stored? {
      StoredUnique(data, p, x.pad, x.bytes, y.pad, y.bytes);
      StoredParts(data, p, x.pad, x.bytes);
      StoredParts(data, p, y.pad, y.bytes);
    } else {
      PackedUnique(Stream(data), p, limit, out, x.header, x.tokens, o, q, y.header, y.tokens, u, r);
    }
  }

  lemma BlockUnique(data: seq<u8>, limit: nat, p: nat, out: seq<u8>, b: Block, o: Outcome<seq<u8>>, d: Block,
        q: Outcome<seq<u8>>)
    requires Item(BlockWriter(limit), Stream(data), p, out, b, o) && Item(BlockWriter(limit), Stream(data), p, out, d, q)
    ensures o == q
  {
    var s := Stream(data);
    BlockItem(limit, s, p, out, b, o);
    BlockItem(limit, s, p, out, d, q);
    NumberUnique(s, p + 1, Kind(b.content), Kind(d.content), 2);
    ContentUnique(data, p + 3, limit, out, b.content, o.state, o.at, d.content, q.state, q.at);
  }

  /** Deflate can be read in only one way. */
  lemma BlocksOneOutcome(data: seq<u8>, limit: nat)
    ensures OneOutcome(BlockWriter(limit), Stream(data))
  {
    var w, s := BlockWriter(limit), Stream(data);
    forall p: nat, out, b, d, o, q | Item(w, s, p, out, b, o) && Item(w, s, p, out, d, q) ensures o == q {
      BlockUnique(data, limit, p, out, b, o, d, q);
    }
  }
}
