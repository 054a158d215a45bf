/** The inflate loop, its block headers, and the zlib wrapper (inflate.rs). */
module Inflate {
  import opened Options
  import opened Words
  import opened Bytes
  import opened Huffman
  import opened Reading
  import opened Deflate

  // ---- one token -------------------------------------------------------------------------

  /** Every byte is the one `back` before it in the output so far. */
  method Copy(out: seq<u8>, back: nat, length: nat) returns (r: seq<u8>)
    requires 1 <= back <= |out|
    ensures r == Copied(out, back, length)
  {
    r := out;
    var start := |out| - back;
    for k := 0 to length
      invariant r == Copied(out, back, k)
    {
      r := r + [r[start + k]];
    }
  }

  /** No match with this length code stands at p. */
  ghost predicate NoMatch(c: Codes, s: seq<bool>, p: nat, index: nat)
  {
    forall u: Token :: u.Match? && u.length == index ==> !TokenAt(c, s, p, u)
  }

  /** The length code stands at p and its extra bits follow. */
  ghost predicate LengthRead(c: Codes, s: seq<bool>, p: nat, index: nat, extra: nat)
  {
    Decodes(c.literal, s, p, 257 + index) && NumberAt(s, ExtraFrom(c, p, index), extra, Extra(LENGTH_EXTRA, index))
  }

  lemma NoLengthExtra(c: Codes, s: seq<bool>, p: nat, index: nat)
    requires DistanceFrom(c, p, index) > |s|
    ensures NoMatch(c, s, p, index)
  {
    forall u: Token | u.Match? && u.length == index ensures !TokenAt(c, s, p, u) { MatchParts(c, s, p, u); }
  }

  lemma NoDistance(c: Codes, s: seq<bool>, p: nat, index: nat)
    requires CodeLengths(c.distance) && Fits(c.distance)
    requires var n := Next(c.distance, s, DistanceFrom(c, p, index)); n.None? || n.value >= 30
    ensures NoMatch(c, s, p, index)
  {
    forall u: Token | u.Match? && u.length == index ensures !TokenAt(c, s, p, u) {
      MatchParts(c, s, p, u);
      NextIs(c.distance, s, DistanceFrom(c, p, index), u.distance);
    }
  }

  lemma NoDistanceExtra(c: Codes, s: seq<bool>, p: nat, index: nat, distance: nat)
    requires CodeLengths(c.distance) && Fits(c.distance)
    requires Next(c.distance, s, DistanceFrom(c, p, index)) == Some(distance)
    requires LastFrom(c, p, index, distance) + Extra(DISTANCE_EXTRA, distance) > |s|
    ensures NoMatch(c, s, p, index)
  {
    forall u: Token | u.Match? && u.length == index ensures !TokenAt(c, s, p, u) {
      MatchParts(c, s, p, u);
      NextIs(c.distance, s, DistanceFrom(c, p, index), u.distance);
    }
  }

  lemma MatchRead(c: Codes, s: seq<bool>, p: nat, t: Token)
    requires CodeLengths(c.distance) && Fits(c.distance)
    requires t.Match? && t.length < 29 && t.distance < 30 && LengthRead(c, s, p, t.length, t.lengthExtra)
    requires Next(c.distance, s, DistanceFrom(c, p, t.length)) == Some(t.distance)
    requires NumberAt(s, LastFrom(c, p, t.length, t.distance), t.distanceExtra, Extra(DISTANCE_EXTRA, t.distance))
    ensures TokenAt(c, s, p, t)
    ensures p + |TokenBits(c, t)| == LastFrom(c, p, t.length, t.distance) + Extra(DISTANCE_EXTRA, t.distance)
  {
    NextIs(c.distance, s, DistanceFrom(c, p, t.length), t.distance);
    MatchParts(c, s, p, t);
    MatchStands(c, s, p, t);
  }

  method TakeExtra(table: seq<nat>, i: nat, bits: Bits) returns (r: Option<nat>)
    requires bits.Valid() && i < |table|
    modifies bits
    ensures bits.Valid() && bits.Pos() >= old(bits.Pos())
    ensures r.None? <==> old(bits.Pos()) + Extra(table, i) > |Stream(bits.data)|
    ensures r.Some? ==> bits.Pos() == old(bits.Pos()) + Extra(table, i)
    ensures r.Some? ==> NumberAt(Stream(bits.data), old(bits.Pos()), r.value, Extra(table, i))
  {
    ghost var p := bits.Pos();
    r := bits.Take(table[i]);
    if r.Some? { NumberIs(Stream(bits.data), p, r.value, table[i]); }
  }

  /** Where the code after a distance code begins. */
  lemma LastFromIs(c: Codes, p: nat, index: nat, distance: nat)
    requires distance < |c.distance|
    ensures LastFrom(c, p, index, distance) == DistanceFrom(c, p, index) + c.distance[distance]
  {
  }

  /** How long a match is, and how far back it starts. */
  function Numbers(index: nat, lengthExtra: nat, distance: nat, distanceExtra: nat): (nat, nat)
    requires index < 29 && distance < 30
  {
    TableSizes();
    (LENGTH_BASE[index] + lengthExtra, DISTANCE_BASE[distance] + distanceExtra)
  }

  /** The numbers of a match whose length code has just been read. */
  method ReadMatch(distance: Table, bits: Bits, index: nat, ghost c: Codes, ghost p: nat)
    returns (r: Option<(nat, nat)>, ghost t: Token)
    requires bits.Valid() && Describes(distance, c.distance) && index < 29
    requires Decodes(c.literal, Stream(bits.data), p, 257 + index) && bits.Pos() == ExtraFrom(c, p, index)
    modifies bits
    ensures bits.Valid() && bits.Pos() >= old(bits.Pos())
    ensures r.Some? ==>
      && t.Match? && t.length == index && t.distance < 30 && TokenAt(c, Stream(bits.data), p, t)
      && bits.Pos() == p + |TokenBits(c, t)|
      && r.value == Numbers(index, t.lengthExtra, t.distance, t.distanceExtra)
    ensures r.None? ==> NoMatch(c, Stream(bits.data), p, index)
  {
    TableSizes();
    ghost var s := Stream(bits.data);
    var extra := TakeExtra(LENGTH_EXTRA, index, bits);
    if extra.None? {
      NoLengthExtra(c, s, p, index);
      return None, End;
    }
    assert LengthRead(c, s, p, index, extra.value);
    ghost var at := DistanceFrom(c, p, index);
    assert bits.Pos() == at;
    var code := Decode(distance, bits, c.distance);
    assert code == Next(c.distance, s, at);
    if code.None? || code.value >= 30 {
      NoDistance(c, s, p, index);
      return None, End;
    }
    NextIs(c.distance, s, DistanceFrom(c, p, index), code.value);
    LastFromIs(c, p, index, code.value);
    var more := TakeExtra(DISTANCE_EXTRA, code.value, bits);
    if more.None? {
      NoDistanceExtra(c, s, p, index, code.value);
      return None, End;
    }
    r := Some(Numbers(index, extra.value, code.value, more.value));
    t := Match(index, extra.value, code.value, more.value);
    MatchRead(c, s, p, t);
  }

  /** Any token that stands at p has the symbol whose code stands there. */
  lemma ItemSymbol(c: Codes, limit: nat, s: seq<bool>, p: nat, out: seq<u8>, t: Token, o: Outcome<seq<u8>>)
    requires CodesOk(c) && Item(TokenWriter(c, limit), s, p, out, t, o)
    ensures Next(c.literal, s, p) == Some(Symbol(t)) && TokenAt(c, s, p, t) && TokenMeans(c, limit, t, out).Some?
  {
    TokenItem(c, limit, s, p, out, t, o);
    TokenSymbol(c, s, p, t);
    NextIs(c.literal, s, p, Symbol(t));
  }

  lemma TokenFound(c: Codes, limit: nat, s: seq<bool>, p: nat, out: seq<u8>, t: Token, o: Outcome<seq<u8>>)
    requires TokenAt(c, s, p, t) && TokenMeans(c, limit, t, out) == Some((o.last, o.state))
    requires o.at == p + |TokenBits(c, t)|
    ensures Stands(TokenWriter(c, limit), s, p, out, o)
  {
    TokenItem(c, limit, s, p, out, t, o);
  }

  /** The token that stands at p cannot follow the output, so no other can. */
  lemma TokenRefused(c: Codes, limit: nat, s: seq<bool>, p: nat, out: seq<u8>, t: Token)
    requires CodesOk(c) && TokenAt(c, s, p, t) && TokenMeans(c, limit, t, out).None?
    ensures Nothing(TokenWriter(c, limit), s, p, out)
  {
    forall u, o ensures !Item(TokenWriter(c, limit), s, p, out, u, o) {
      if Item(TokenWriter(c, limit), s, p, out, u, o) {
        ItemSymbol(c, limit, s, p, out, u, o);
        TokenUnique(c, s, p, t, u);
      }
    }
  }

  /** No token has the symbol whose code stands at p. */
  ghost predicate NoSymbol(c: Codes, s: seq<bool>, p: nat, n: Option<nat>)
  {
    n.None? || n.value > 285 || (n.value > 256 && NoMatch(c, s, p, n.value - 257))
  }

  lemma SymbolMissing(c: Codes, limit: nat, s: seq<bool>, p: nat, out: seq<u8>)
    requires CodesOk(c) && NoSymbol(c, s, p, Next(c.literal, s, p))
    ensures Nothing(TokenWriter(c, limit), s, p, out)
  {
    forall u, o ensures !Item(TokenWriter(c, limit), s, p, out, u, o) {
      if Item(TokenWriter(c, limit), s, p, out, u, o) {
        ItemSymbol(c, limit, s, p, out, u, o);
      }
    }
  }

  lemma TokenLonger(c: Codes, t: Token)
    requires TokenOk(c, t)
    ensures |TokenBits(c, t)| > 0
  {
  }

  /** The token at p was read, and what it makes of the output was done. */
  lemma TokenTurn(c: Codes, limit: nat, s: seq<bool>, p: nat, out: seq<u8>, t: Token, r: Option<(bool, seq<u8>)>, q: nat)
    requires CodesOk(c) && TokenAt(c, s, p, t)
    requires r == TokenMeans(c, limit, t, out) && q == p + |TokenBits(c, t)|
    ensures Turned(TokenWriter(c, limit), s, p, out, r, q) && q > p
  {
    TokenLonger(c, t);
    match r
    case None => TokenRefused(c, limit, s, p, out, t);
    case Some((last, o)) =>
      TokenFound(c, limit, s, p, out, t, Outcome(last, o, q));
  }

  /** A token without further numbers. */
  lemma PlainToken(c: Codes, s: seq<bool>, p: nat, t: Token)
    requires CodesOk(c) && !t.Match? && Next(c.literal, s, p) == Some(Symbol(t)) && (t.Literal? ==> t.byte < 256)
    ensures TokenAt(c, s, p, t) && HasCode(c.literal, Symbol(t)) && |TokenBits(c, t)| == c.literal[Symbol(t)]
  {
    NextIs(c.literal, s, p, Symbol(t));
  }

  /** What a match makes of the output. */
  method Follow(out: seq<u8>, length: nat, back: nat, limit: nat, ghost c: Codes, ghost t: Token) returns (r: Option<(bool, seq<u8>)>)
    requires t.Match? && TokenOk(c, t)
    requires length == LENGTH_BASE[t.length] + t.lengthExtra && back == DISTANCE_BASE[t.distance] + t.distanceExtra
    ensures r == TokenMeans(c, limit, t, out)
  {
    DistancesPositive(t.distance);
    if back > |out| || |out| + length > limit {
      return None;
    }
    var o := Copy(out, back, length);
    r := Some((false, o));
  }

  lemma LengthCodeRead(c: Codes, s: seq<bool>, p: nat, index: nat)
    requires CodesOk(c) && Next(c.literal, s, p) == Some(257 + index)
    ensures Decodes(c.literal, s, p, 257 + index) && ExtraFrom(c, p, index) == p + c.literal[257 + index]
  {
    NextIs(c.literal, s, p, 257 + index);
  }

  lemma PlainTurn(c: Codes, limit: nat, s: seq<bool>, p: nat, out: seq<u8>, t: Token, symbol: nat)
    requires CodesOk(c) && !t.Match? && symbol == Symbol(t) && (t.Literal? ==> t.byte < 256)
    requires Next(c.literal, s, p) == Some(symbol)
    ensures HasCode(c.literal, symbol) && c.literal[symbol] > 0 && TokenOk(c, t)
    ensures Turned(TokenWriter(c, limit), s, p, out, TokenMeans(c, limit, t, out), p + c.literal[symbol])
  {
    PlainToken(c, s, p, t);
    TokenTurn(c, limit, s, p, out, t, TokenMeans(c, limit, t, out), p + c.literal[symbol]);
  }

  lemma LiteralMeans(c: Codes, limit: nat, symbol: nat, out: seq<u8>, r: Option<(bool, seq<u8>)>)
    requires symbol < 256 && TokenOk(c, Literal(symbol))
    requires r == if |out| + 1 > limit then None else Some((false, out + [symbol as u8]))
    ensures r == TokenMeans(c, limit, Literal(symbol), out)
  {
  }

  lemma LiteralTurn(c: Codes, limit: nat, s: seq<bool>, p: nat, out: seq<u8>, symbol: nat)
    requires CodesOk(c) && symbol < 256 && Next(c.literal, s, p) == Some(symbol)
    ensures HasCode(c.literal, symbol) && c.literal[symbol] > 0
    ensures Turned(TokenWriter(c, limit), s, p, out, if |out| + 1 > limit then None else Some((false, out + [symbol as u8])),
              p + c.literal[symbol])
  {
    PlainTurn(c, limit, s, p, out, Literal(symbol), symbol);
    LiteralMeans(c, limit, symbol, out, if |out| + 1 > limit then None else Some((false, out + [symbol as u8])));
  }

  lemma EndTurn(c: Codes, limit: nat, s: seq<bool>, p: nat, out: seq<u8>)
    requires CodesOk(c) && Next(c.literal, s, p) == Some(256)
    ensures HasCode(c.literal, 256)
    ensures Turned(TokenWriter(c, limit), s, p, out, Some((true, out)), p + c.literal[256])
  {
    PlainTurn(c, limit, s, p, out, End, 256);
  }

  /** A match whose length code has just been read. */
  method OneMatch(distance: Table, bits: Bits, out: seq<u8>, limit: nat, index: nat, ghost c: Codes, ghost p: nat)
    returns (r: Option<(bool, seq<u8>)>)
    requires bits.Valid() && CodesOk(c) && Describes(distance, c.distance) && index < 29
    requires Next(c.literal, Stream(bits.data), p) == Some(257 + index)
    requires Decodes(c.literal, Stream(bits.data), p, 257 + index) && bits.Pos() == ExtraFrom(c, p, index)
    modifies bits
    ensures bits.Valid() && bits.Pos() >= old(bits.Pos())
    ensures Turned(TokenWriter(c, limit), Stream(bits.data), p, out, r, bits.Pos())
  {
    var numbers, t := ReadMatch(distance, bits, index, c, p);
    if numbers.None? {
      SymbolMissing(c, limit, Stream(bits.data), p, out);
      return None;
    }
    r := Follow(out, numbers.value.0, numbers.value.1, limit, c, t);
    TokenTurn(c, limit, Stream(bits.data), p, out, t, r, bits.Pos());
  }

  /** One turn of the inner loop: the token at the cursor and the output after it; None
      when no token stands there that can follow the output within the limit. */
  method OneToken(literal: Table, distance: Table, bits: Bits, out: seq<u8>, limit: nat, ghost c: Codes)
    returns (r: Option<(bool, seq<u8>)>)
    requires bits.Valid() && Describes(literal, c.literal) && Describes(distance, c.distance)
    modifies bits
    ensures bits.Valid() && bits.Pos() >= old(bits.Pos())
    ensures r.Some? ==> bits.Pos() > old(bits.Pos())
    ensures Turned(TokenWriter(c, limit), Stream(bits.data), old(bits.Pos()), out, r, bits.Pos())
  {
    ghost var s, p := Stream(bits.data), bits.Pos();
    var found := Decode(literal, bits, c.literal);
    if found.None? {
      SymbolMissing(c, limit, s, p, out);
      return None;
    }
    var symbol := found.value;
    if symbol <= 255 {
      LiteralTurn(c, limit, s, p, out, symbol);
      r := if |out| + 1 > limit then None else Some((false, out + [symbol as u8]));
    } else if symbol == 256 {
      EndTurn(c, limit, s, p, out);
      r := Some((true, out));
    } else if symbol <= 285 {
      LengthCodeRead(c, s, p, symbol - 257);
      r := OneMatch(distance, bits, out, limit, symbol - 257, c, p);
    } else {
      SymbolMissing(c, limit, s, p, out);
      r := None;
    }
  }

  /** The body of a compressed block: what is written at the cursor. */
  method Body(literal: Table, distance: Table, bits: Bits, start: seq<u8>, limit: nat, ghost c: Codes)
    returns (r: Option<seq<u8>>)
    requires bits.Valid() && Describes(literal, c.literal) && Describes(distance, c.distance)
    modifies bits
    ensures bits.Valid() && bits.Pos() >= old(bits.Pos())
    ensures Read(TokenWriter(c, limit), Stream(bits.data), old(bits.Pos()), start)
      == if r.None? then None else Some((r.value, bits.Pos()))
  {
    var out := start;
    ghost var s, w := Stream(bits.data), TokenWriter(c, limit);
    TokensOneOutcome(c, limit, s);
    while true
      invariant bits.Valid() && bits.Pos() >= old(bits.Pos())
      invariant Read(w, s, old(bits.Pos()), start) == Read(w, s, bits.Pos(), out)
      decreases |s| - bits.Pos()
    {
      ghost var p := bits.Pos();
      var step := OneToken(literal, distance, bits, out, limit, c);
      ReadTurn(w, s, p, out, step, bits.Pos());
      if step.None? {
        return None;
      }
      var (last, next) := step.value;
      if last {
        return Some(next);
      }
      out := next;
    }
  }

  // ---- code length runs ---------------------------------------------------------------------

  ghost predicate NoRun(l: seq<nat>, s: seq<bool>, p: nat)
  {
    forall u :: !RunAt(l, s, p, u)
  }

  lemma RunSymbolAt(l: seq<nat>, s: seq<bool>, p: nat, u: Run)
    requires CodeLengths(l) && Fits(l) && RunAt(l, s, p, u)
    ensures Next(l, s, p) == Some(RunSymbol(u)) && p + l[RunSymbol(u)] + RunExtra(u).1 <= |s|
  {
    RunParts(l, s, p, u);
    NextIs(l, s, p, RunSymbol(u));
  }

  /** The symbol n read at p is none of a run, or its extra bits go past the end. */
  predicate NoRunSymbol(l: seq<nat>, size: nat, p: nat, width: nat, n: Option<nat>)
  {
    n.None? || n.value > 18
    || (n.value >= 16 && width == (if n.value == 16 then 2 else if n.value == 17 then 3 else 7)
        && n.value < |l| && p + l[n.value] + width > size)
  }

  lemma RunHasRoom(l: seq<nat>, size: nat, p: nat, width: nat, u: Run)
    requires RunSymbol(u) < |l| && (u.Length? ==> u.value <= 15) && p + l[RunSymbol(u)] + RunExtra(u).1 <= size
    ensures !NoRunSymbol(l, size, p, width, Some(RunSymbol(u)))
  {
  }

  /** No run stands where no symbol of one does, or its extra bits are missing. */
  lemma RunMissing(l: seq<nat>, s: seq<bool>, p: nat, width: nat)
    requires CodeLengths(l) && Fits(l)
    requires NoRunSymbol(l, |s|, p, width, Next(l, s, p))
    ensures NoRun(l, s, p)
  {
    forall u ensures !RunAt(l, s, p, u) {
      if RunAt(l, s, p, u) {
        RunSymbolAt(l, s, p, u);
        RunHasRoom(l, |s|, p, width, u);
      }
    }
  }

  lemma RunRead(l: seq<nat>, s: seq<bool>, p: nat, u: Run)
    requires CodeLengths(l) && Fits(l) && Next(l, s, p) == Some(RunSymbol(u)) && (u.Length? ==> u.value <= 15)
    ensures HasCode(l, RunSymbol(u)) && |RunBits(l, u)| == l[RunSymbol(u)] + RunExtra(u).1
    ensures NumberAt(s, p + l[RunSymbol(u)], RunExtra(u).0, RunExtra(u).1) ==> RunAt(l, s, p, u)
  {
    NextIs(l, s, p, RunSymbol(u));
    RunParts(l, s, p, u);
  }

  lemma LengthRunRead(l: seq<nat>, s: seq<bool>, p: nat, value: nat)
    requires CodeLengths(l) && Fits(l) && Next(l, s, p) == Some(value) && value <= 15
    ensures RunAt(l, s, p, Length(value)) && |RunBits(l, Length(value))| == l[value]
  {
    NextIs(l, s, p, value);
    RunRead(l, s, p, Length(value));
    NumberIs(s, p + l[value], 0, 0);
  }

  /** The run at the cursor; None when none stands there. */
  method TakeRun(code: Table, bits: Bits, ghost l: seq<nat>) returns (r: Option<Run>)
    requires bits.Valid() && Describes(code, l)
    modifies bits
    ensures bits.Valid() && bits.Pos() >= old(bits.Pos())
    ensures r.None? ==> NoRun(l, Stream(bits.data), old(bits.Pos()))
    ensures r.Some? ==>
      RunAt(l, Stream(bits.data), old(bits.Pos()), r.value) && bits.Pos() == old(bits.Pos()) + |RunBits(l, r.value)|
  {
    ghost var s, p := Stream(bits.data), bits.Pos();
    var found := Decode(code, bits, l);
    if found.None? || found.value > 18 {
      RunMissing(l, s, p, 0);
      return None;
    }
    var symbol := found.value;
    if symbol <= 15 {
      LengthRunRead(l, s, p, symbol);
      return Some(Length(symbol));
    }
    var width := if symbol == 16 then 2 else if symbol == 17 then 3 else 7;
    ghost var at := bits.Pos();
    NextIs(l, s, p, symbol);
    var more := bits.Take(width);
    if more.None? {
      RunMissing(l, s, p, width);
      return None;
    }
    NumberIs(s, at, more.value, width);
    var run := if symbol == 16 then Again(more.value) else if symbol == 17 then Zeros(more.value) else ManyZeros(more.value);
    RunRead(l, s, p, run);
    r := Some(run);
  }

  lemma RunTurn(l: seq<nat>, total: nat, s: seq<bool>, p: nat, lengths: seq<nat>, run: Run,
        r: Option<(bool, seq<nat>)>, q: nat)
    requires CodeLengths(l) && Fits(l) && RunAt(l, s, p, run)
    requires r == RunMeans(l, total, run, lengths) && q == p + |RunBits(l, run)|
    ensures Turned(RunWriter(l, total), s, p, lengths, r, q) && q > p
  {
    match r
    case None =>
      forall u, o ensures !Item(RunWriter(l, total), s, p, lengths, u, o) {
        RunItem(l, total, s, p, lengths, u, o);
        if Item(RunWriter(l, total), s, p, lengths, u, o) { RunUnique(l, s, p, run, u); }
      }
    case Some((last, all)) => RunItem(l, total, s, p, lengths, run, Outcome(last, all, q));
  }

  lemma NoRunTurn(l: seq<nat>, total: nat, s: seq<bool>, p: nat, lengths: seq<nat>, q: nat)
    requires NoRun(l, s, p)
    ensures Turned(RunWriter(l, total), s, p, lengths, None, q)
  {
    forall u, o ensures !Item(RunWriter(l, total), s, p, lengths, u, o) {
      RunItem(l, total, s, p, lengths, u, o);
    }
  }

  /** One turn of the loop over code lengths. */
  method OneRun(code: Table, bits: Bits, lengths: seq<nat>, total: nat, ghost l: seq<nat>) returns (r: Option<(bool, seq<nat>)>)
    requires bits.Valid() && Describes(code, l)
    modifies bits
    ensures bits.Valid() && bits.Pos() >= old(bits.Pos())
    ensures r.Some? ==> bits.Pos() > old(bits.Pos())
    ensures Turned(RunWriter(l, total), Stream(bits.data), old(bits.Pos()), lengths, r, bits.Pos())
  {
    ghost var s, p := Stream(bits.data), bits.Pos();
    var run := TakeRun(code, bits, l);
    if run.None? {
      NoRunTurn(l, total, s, p, lengths, bits.Pos());
      return None;
    }
    var added := RunLengths(run.value, lengths);
    r := if added.None? || |lengths| + |added.value| > total then None
         else Some((|lengths| + |added.value| == total, lengths + added.value));
    RunTurn(l, total, s, p, lengths, run.value, r, bits.Pos());
  }

  /** All code lengths: what is written at the cursor. */
  method AllRuns(code: Table, bits: Bits, total: nat, ghost l: seq<nat>) returns (r: Option<seq<nat>>)
    requires bits.Valid() && Describes(code, l) && total > 0
    modifies bits
    ensures bits.Valid() && bits.Pos() >= old(bits.Pos())
    ensures Read(RunWriter(l, total), Stream(bits.data), old(bits.Pos()), [])
      == if r.None? then None else Some((r.value, bits.Pos()))
  {
    var lengths: seq<nat> := [];
    ghost var s, w := Stream(bits.data), RunWriter(l, total);
    RunsOneOutcome(l, total, s);
    while |lengths| < total
      invariant bits.Valid() && bits.Pos() >= old(bits.Pos())
      invariant if |lengths| < total then Read(w, s, old(bits.Pos()), []) == Read(w, s, bits.Pos(), lengths)
        else Read(w, s, old(bits.Pos()), []) == Some((lengths, bits.Pos()))
      decreases |s| - bits.Pos()
    {
      ghost var p := bits.Pos();
      var step := OneRun(code, bits, lengths, total, l);
      ReadTurn(w, s, p, lengths, step, bits.Pos());
      if step.None? {
        return None;
      }
      RunGrows(l, total, s, p, lengths, step.value.0, step.value.1, bits.Pos());
      lengths := step.value.1;
    }
    r := Some(lengths);
  }

  /** A run that leaves lengths missing is not the last, and one that leaves none is. */
  lemma RunGrows(l: seq<nat>, total: nat, s: seq<bool>, p: nat, lengths: seq<nat>, last: bool, all: seq<nat>, q: nat)
    requires Stands(RunWriter(l, total), s, p, lengths, Outcome(last, all, q))
    ensures last <==> |all| >= total
  {
    var u :| Item(RunWriter(l, total), s, p, lengths, u, Outcome(last, all, q));
    RunItem(l, total, s, p, lengths, u, Outcome(last, all, q));
  }

  // ---- block headers --------------------------------------------------------------------------

  /** The code lengths of the code length code, each at its place. */
  method TakeOrder(bits: Bits, count: nat) returns (r: Option<seq<nat>>, ghost order: seq<nat>)
    requires bits.Valid() && count <= 19
    modifies bits
    ensures bits.Valid() && bits.Pos() >= old(bits.Pos())
    ensures r.Some? ==> |order| == count && OrderAt(Stream(bits.data), old(bits.Pos()), order) && r.value == Arranged(order)
    ensures r.Some? ==> bits.Pos() == old(bits.Pos()) + 3 * count
    ensures r.None? ==> old(bits.Pos()) + 3 * count > |Stream(bits.data)|
  {
    var lengths: seq<nat> := seq(19, i => 0);
    order := [];
    ghost var s, p := Stream(bits.data), bits.Pos();
    TableSizes();
    for i := 0 to count
      invariant bits.Valid() && bits.Pos() == p + 3 * i
      invariant |order| == i && OrderAt(s, p, order) && lengths == Arranged(order)
    {
      var n := bits.Take(3);
      if n.None? {
        return None, order;
      }
      OrderTaken(s, p, order, p + 3 * i, n.value);
      lengths := lengths[CODE_LENGTH_ORDER[i] := n.value];
      order := order + [n.value];
    }
    r := Some(lengths);
  }

  /** One more length of three bits, at its place. */
  lemma OrderTaken(s: seq<bool>, p: nat, order: seq<nat>, at: nat, n: nat)
    requires |order| < 19 && OrderAt(s, p, order) && at == p + 3 * |order|
    requires at + 3 <= |s| && n == LowFirst(s[at..at + 3])
    ensures OrderAt(s, p, order + [n]) && Arranged(order + [n]) == Arranged(order)[CODE_LENGTH_ORDER[|order|] := n]
  {
    NumberIs(s, at, n, 3);
    OrderPush(s, p, order, n);
    ArrangedPush(order, n);
  }

  lemma ArrangedPush(order: seq<nat>, n: nat)
    requires |order| < 19
    ensures Arranged(order + [n]) == Arranged(order)[CODE_LENGTH_ORDER[|order|] := n]
  {
    assert (order + [n])[..|order|] == order;
  }

  ghost predicate NoSizes(s: seq<bool>, p: nat)
  {
    forall z :: !SizesAt(s, p, z)
  }

  /** How many codes of each kind there are, as they are sent. */
  method TakeNumbers(bits: Bits) returns (r: Option<(nat, nat, nat)>)
    requires bits.Valid()
    modifies bits
    ensures bits.Valid() && bits.Pos() >= old(bits.Pos())
    ensures r.None? ==> old(bits.Pos()) + 14 > |Stream(bits.data)|
    ensures r.Some? ==> bits.Pos() == old(bits.Pos()) + 14 && r.value.2 < 16
    ensures r.Some? ==> NumbersAt(Stream(bits.data), old(bits.Pos()), r.value.0, r.value.1, r.value.2)
  {
    ghost var s, p := Stream(bits.data), bits.Pos();
    var literals := bits.Take(5);
    if literals.None? {
      return None;
    }
    var distances := bits.Take(5);
    if distances.None? {
      return None;
    }
    var sent := bits.Take(4);
    if sent.None? {
      return None;
    }
    NumbersRead(s, p, literals.value, distances.value, sent.value);
    r := Some((literals.value, distances.value, sent.value));
  }

  /** The sizes at the cursor, and the code length code they state. */
  method TakeSizes(bits: Bits) returns (r: Option<(nat, nat, Table)>, ghost z: Sizes)
    requires bits.Valid()
    modifies bits
    ensures bits.Valid() && bits.Pos() >= old(bits.Pos())
    ensures r.None? ==> NoSizes(Stream(bits.data), old(bits.Pos()))
    ensures r.Some? ==>
      && SizesAt(Stream(bits.data), old(bits.Pos()), z) && bits.Pos() == RunsFrom(old(bits.Pos()), z)
      && r.value.0 == z.literals + 257 && r.value.1 == z.distances + 1 && Describes(r.value.2, OrderLengths(z))
  {
    ghost var s, p := Stream(bits.data), bits.Pos();
    z := Sizes(0, 0, 0, []);
    var numbers := TakeNumbers(bits);
    if numbers.None? {
      SizesMissing(s, p, 0, 0, 0);
      return None, z;
    }
    var (literals, distances, sent) := numbers.value;
    if literals + 257 > 286 || distances + 1 > 30 {
      SizesMissing(s, p, literals, distances, sent);
      return None, z;
    }
    var lengths, order := TakeOrder(bits, sent + 4);
    if lengths.None? {
      SizesMissing(s, p, literals, distances, sent);
      return None, z;
    }
    z := Sizes(literals, distances, sent, order);
    ArrangedLengths(order);
    var code := New(lengths.value);
    if code.None? {
      OrderRefused(s, p, z);
      return None, z;
    }
    SizesRead(s, p, z);
    r := Some((literals + 257, distances + 1, code.value));
  }

  /** The three numbers at p. */
  ghost predicate NumbersAt(s: seq<bool>, p: nat, literals: nat, distances: nat, sent: nat)
  {
    NumberAt(s, p, literals, 5) && NumberAt(s, p + 5, distances, 5) && NumberAt(s, p + 10, sent, 4)
  }

  lemma NumbersRead(s: seq<bool>, p: nat, literals: nat, distances: nat, sent: nat)
    requires p + 14 <= |s|
    requires literals == LowFirst(s[p..p + 5]) && distances == LowFirst(s[p + 5..p + 10]) && sent == LowFirst(s[p + 10..p + 14])
    ensures NumbersAt(s, p, literals, distances, sent) && sent < 16
  {
    NumberIs(s, p, literals, 5);
    NumberIs(s, p + 5, distances, 5);
    NumberIs(s, p + 10, sent, 4);
    FixedPowers(4);
    assert Pow2(4) == 16;
  }

  lemma SizesRead(s: seq<bool>, p: nat, z: Sizes)
    requires NumbersAt(s, p, z.literals, z.distances, z.sent) && OrderAt(s, p + 14, z.order)
    requires z.literals + 257 <= 286 && z.distances + 1 <= 30 && z.sent < 16 && |z.order| == z.sent + 4
    requires Fits(OrderLengths(z))
    ensures SizesAt(s, p, z)
  {
    SizesParts(s, p, z);
  }

  /** No sizes stand where their numbers are missing, too large, or ask for more lengths
      than there are. */
  lemma SizesMissing(s: seq<bool>, p: nat, literals: nat, distances: nat, sent: nat)
    requires p + 14 > |s|
      || (NumbersAt(s, p, literals, distances, sent)
          && (literals + 257 > 286 || distances + 1 > 30 || p + 14 + 3 * (sent + 4) > |s|))
    ensures NoSizes(s, p)
  {
    forall z ensures !SizesAt(s, p, z) {
      if SizesAt(s, p, z) {
        SizesParts(s, p, z);
        if NumbersAt(s, p, literals, distances, sent) {
          NumberUnique(s, p, z.literals, literals, 5);
          NumberUnique(s, p + 5, z.distances, distances, 5);
          NumberUnique(s, p + 10, z.sent, sent, 4);
        }
      }
    }
  }

  /** Nor where the code length code has more codes than its lengths allow. */
  lemma OrderRefused(s: seq<bool>, p: nat, z: Sizes)
    requires NumbersAt(s, p, z.literals, z.distances, z.sent) && OrderAt(s, p + 14, z.order)
    requires |z.order| == z.sent + 4 <= 19 && !Fits(OrderLengths(z))
    ensures NoSizes(s, p)
  {
    forall y ensures !SizesAt(s, p, y) {
      if SizesAt(s, p, y) {
        SizesParts(s, p, y);
        NumberUnique(s, p + 10, y.sent, z.sent, 4);
        OrderUnique(s, p + 14, y.order, z.order);
      }
    }
  }

  /** No header of its own codes stands at p. */
  ghost predicate NoHeader(s: seq<bool>, p: nat)
  {
    forall h: Header, c, q: nat :: h.Dynamic? ==> !HeaderAt(s, p, h, c, q)
  }

  lemma NoSizesNoHeader(s: seq<bool>, p: nat)
    requires NoSizes(s, p)
    ensures NoHeader(s, p)
  {
    forall h: Header, c, q: nat | h.Dynamic? ensures !HeaderAt(s, p, h, c, q) {
      if HeaderAt(s, p, h, c, q) { var all := HeaderMakes(s, p, h.sizes, h.runs, c, q); }
    }
  }

  /** The codes any header at p states come of the lengths its runs make. */
  lemma StatedRead(s: seq<bool>, p: nat, z: Sizes, c: Codes, q: nat) returns (all: seq<nat>)
    requires SizesAt(s, p, z) && Stated(s, p, c, q)
    ensures Read(Runs(z), s, RunsFrom(p, z), []) == Some((all, q)) && Parted(z.literals + 257, all) == Some(c)
  {
    var y, runs, made :| StatedBy(s, p, c, q, y, runs, made);
    all := made;
    SizesUnique(s, p, z, y);
    SameSizesRead(s, p, c, q, z, runs, all);
  }

  lemma SameSizesRead(s: seq<bool>, p: nat, c: Codes, q: nat, z: Sizes, runs: seq<Run>, all: seq<nat>)
    requires StatedBy(s, p, c, q, z, runs, all)
    ensures Read(Runs(z), s, RunsFrom(p, z), []) == Some((all, q)) && Parted(z.literals + 257, all) == Some(c)
  {
    RunsRead(s, p, z, runs, all, q);
  }

  lemma RunsRead(s: seq<bool>, p: nat, z: Sizes, runs: seq<Run>, all: seq<nat>, q: nat)
    requires DynamicAt(s, p, z, runs, all, q)
    ensures Read(Runs(z), s, RunsFrom(p, z), []) == Some((all, q))
  {
    OrderLengthsOk(z);
    RunsOneOutcome(OrderLengths(z), Total(z), s);
    ReadIs(Runs(z), s, RunsFrom(p, z), [], runs, all, q);
  }

  /** The lengths at hand make no codes a block may have. */
  lemma LengthsRefused(s: seq<bool>, p: nat, z: Sizes, read: Option<(seq<nat>, nat)>)
    requires SizesAt(s, p, z) && read == Read(Runs(z), s, RunsFrom(p, z), [])
    requires read.None? || Parted(z.literals + 257, read.value.0).None?
    ensures NoHeader(s, p)
  {
    forall h: Header, c, q: nat | h.Dynamic? ensures !HeaderAt(s, p, h, c, q) {
      if HeaderAt(s, p, h, c, q) {
        IsStated(s, p, h.sizes, h.runs, c, q);
        var all := StatedRead(s, p, z, c, q);
      }
    }
  }

  lemma LengthsRead(s: seq<bool>, p: nat, z: Sizes, all: seq<nat>, q: nat)
    requires SizesAt(s, p, z) && Read(Runs(z), s, RunsFrom(p, z), []) == Some((all, q))
    ensures |all| == Total(z) && forall i :: 0 <= i < |all| ==> all[i] <= 15
  {
    var runs := ReadSome(Runs(z), s, RunsFrom(p, z), [], all, q);
    RunsMake(OrderLengths(z), Total(z), runs, []);
  }

  lemma LengthsAccepted(s: seq<bool>, p: nat, z: Sizes, all: seq<nat>, q: nat, c: Codes) returns (h: Header)
    requires SizesAt(s, p, z) && Read(Runs(z), s, RunsFrom(p, z), []) == Some((all, q))
    requires Parted(z.literals + 257, all) == Some(c)
    ensures h.Dynamic? && HeaderAt(s, p, h, c, q)
  {
    var runs := ReadSome(Runs(z), s, RunsFrom(p, z), [], all, q);
    h := Dynamic(z, runs);
    HeaderMade(s, p, z, runs, all, c, q);
  }

  /** The tables of both codes from their lengths, one after the other. */
  method PartTables(lengths: seq<nat>, literals: nat) returns (r: Option<(Table, Table)>)
    requires 256 < literals <= |lengths| <= 0xffff && forall i :: 0 <= i < |lengths| ==> lengths[i] <= 15
    ensures r.None? <==> Parted(literals, lengths).None?
    ensures r.Some? ==> var c := Parted(literals, lengths).value;
      Describes(r.value.0, c.literal) && Describes(r.value.1, c.distance)
  {
    if lengths[256] == 0 {
      return None;
    }
    var literal := New(lengths[..literals]);
    if literal.None? {
      return None;
    }
    var distance := New(lengths[literals..]);
    if distance.None? {
      return None;
    }
    r := Some((literal.value, distance.value));
  }

  /** The tables of the codes a block states itself. */
  method DynamicTables(bits: Bits) returns (r: Option<(Table, Table)>, ghost h: Header, ghost c: Codes)
    requires bits.Valid()
    modifies bits
    ensures bits.Valid() && bits.Pos() >= old(bits.Pos())
    ensures r.None? ==> NoHeader(Stream(bits.data), old(bits.Pos()))
    ensures r.Some? ==> h.Dynamic? && HeaderAt(Stream(bits.data), old(bits.Pos()), h, c, bits.Pos())
    ensures r.Some? ==> Describes(r.value.0, c.literal) && Describes(r.value.1, c.distance)
  {
    ghost var s, p := Stream(bits.data), bits.Pos();
    h, c := Fixed, Codes([], []);
    var sizes, z := TakeSizes(bits);
    if sizes.None? {
      NoSizesNoHeader(s, p);
      return None, h, c;
    }
    var (literals, distances, code) := sizes.value;
    var total := literals + distances;
    ghost var at, w := RunsFrom(p, z), Runs(z);
    assert bits.Pos() == at && w == RunWriter(OrderLengths(z), total);
    var lengths := AllRuns(code, bits, total, OrderLengths(z));
    ghost var read := if lengths.None? then None else Some((lengths.value, bits.Pos()));
    assert read == Read(w, s, at, []);
    if lengths.None? {
      LengthsRefused(s, p, z, read);
      return None, h, c;
    }
    LengthsRead(s, p, z, lengths.value, bits.Pos());
    r := PartTables(lengths.value, literals);
    if r.None? {
      LengthsRefused(s, p, z, read);
    } else {
      c := Parted(literals, lengths.value).value;
      h := LengthsAccepted(s, p, z, lengths.value, bits.Pos(), c);
    }
  }

  method FixedTables() returns (literal: Table, distance: Table)
    ensures Describes(literal, FixedCodes().literal) && Describes(distance, FixedCodes().distance)
  {
    FixedFits();
    var lengths: seq<nat> := seq(288, i => if i < 144 then 8 else if i < 256 then 9 else if i < 280 then 7 else 8);
    var back: seq<nat> := seq(30, i => 5);
    assert lengths == FixedCodes().literal && back == FixedCodes().distance;
    var l := New(lengths);
    var d := New(back);
    literal, distance := l.value, d.value;
  }

  // ---- blocks ---------------------------------------------------------------------------------

  /** No content of this kind stands at p that can follow the output within the limit. */
  ghost predicate NoContent(s: seq<bool>, p: nat, limit: nat, out: seq<u8>, kind: nat)
  {
    forall x, o, q: nat :: Kind(x) == kind ==> !ContentAt(s, p, limit, x, out, o, q)
  }

  ghost predicate SomeContent(s: seq<bool>, p: nat, limit: nat, out: seq<u8>, kind: nat, o: seq<u8>, q: nat)
  {
    exists x :: Kind(x) == kind && ContentAt(s, p, limit, x, out, o, q)
  }

  /** What a block of this kind did. */
  ghost predicate Did(s: seq<bool>, p: nat, limit: nat, out: seq<u8>, kind: nat, r: Option<seq<u8>>, q: nat)
  {
    match r
    case None => NoContent(s, p, limit, out, kind)
    case Some(o) => SomeContent(s, p, limit, out, kind, o, q)
  }

  lemma StoredIs(data: seq<u8>, p: nat, limit: nat, out: seq<u8>, pad: nat, bytes: seq<u8>, o: seq<u8>, q: nat)
    ensures ContentAt(Stream(data), p, limit, Stored(pad, bytes), out, o, q) <==>
      && StoredAt(data, p, pad, bytes) && q == 8 * (ByteFrom(p) + 4 + |bytes|)
      && |bytes| <= 0xffff && |out| + |bytes| <= limit && o == out + bytes
  {
    StoredParts(data, p, pad, bytes);
  }

  /** The length field at a and its complement say n, and n bytes follow. */
  predicate Framed(data: seq<u8>, a: nat, n: nat)
  {
    && a + 4 + n <= |data| && n <= 0xffff
    && Little(data[a..a + 2]) == n && Little(data[a + 2..a + 4]) == 0xffff - n
  }

  lemma FramedIs(data: seq<u8>, a: nat, bytes: seq<u8>)
    requires |bytes| <= 0xffff
    ensures BytesAt(data, a, StoredBytes(bytes)) <==> Framed(data, a, |bytes|) && data[a + 4..a + 4 + |bytes|] == bytes
  {
    LengthField(data, a, bytes);
  }

  lemma StoredRefused(data: seq<u8>, p: nat, limit: nat, out: seq<u8>)
    requires forall n: nat :: Framed(data, ByteFrom(p), n) ==> |out| + n > limit
    ensures NoContent(Stream(data), p, limit, out, 0)
  {
    forall x, o, q: nat | Kind(x) == 0 ensures !ContentAt(Stream(data), p, limit, x, out, o, q) {
      if ContentAt(Stream(data), p, limit, x, out, o, q) {
        StoredIs(data, p, limit, out, x.pad, x.bytes, o, q);
        FramedIs(data, ByteFrom(p), x.bytes);
        assert false;
      }
    }
  }

  lemma PadAt(s: seq<bool>, p: nat, at: nat)
    requires p <= at <= |s|
    ensures StandsAt(s, p, NumberBits(LowFirst(s[p..at]), at - p))
  {
    NumberIs(s, p, LowFirst(s[p..at]), at - p);
  }

  lemma StoredAccepted(data: seq<u8>, p: nat, limit: nat, out: seq<u8>, bytes: seq<u8>)
    requires Framed(data, ByteFrom(p), |bytes|) && data[ByteFrom(p) + 4..ByteFrom(p) + 4 + |bytes|] == bytes
    requires |out| + |bytes| <= limit
    ensures SomeContent(Stream(data), p, limit, out, 0, out + bytes, 8 * (ByteFrom(p) + 4 + |bytes|))
  {
    var pad := LowFirst(Stream(data)[p..8 * ByteFrom(p)]);
    FramedIs(data, ByteFrom(p), bytes);
    PadAt(Stream(data), p, 8 * ByteFrom(p));
    StoredIs(data, p, limit, out, pad, bytes, out + bytes, 8 * (ByteFrom(p) + 4 + |bytes|));
    assert Kind(Stored(pad, bytes)) == 0;
  }

  lemma TwoBytesBound(x: seq<u8>)
    requires |x| == 2
    ensures Little(x) == x[0] as nat + 256 * x[1] as nat <= 0xffff
  {
    assert Little(x[1..]) == x[1] as nat + 256 * Little(x[1..][1..]);
  }

  /** A block of bytes as they are. */
  method StoredBlock(bits: Bits, out: seq<u8>, limit: nat) returns (r: Option<seq<u8>>)
    requires bits.Valid()
    modifies bits
    ensures bits.Valid() && bits.Pos() >= old(bits.Pos())
    ensures Did(Stream(bits.data), old(bits.Pos()), limit, out, 0, r, bits.Pos())
  {
    ghost var p := bits.Pos();
    var data := bits.data;
    bits.Align();
    if bits.at + 4 > |data| {
      StoredRefused(data, p, limit, out);
      return None;
    }
    TwoBytesBound(data[bits.at..bits.at + 2]);
    TwoBytesBound(data[bits.at + 2..bits.at + 4]);
    var length := data[bits.at] as nat + 256 * data[bits.at + 1] as nat;
    var check := data[bits.at + 2] as nat + 256 * data[bits.at + 3] as nat;
    if length != 0xffff - check || bits.at + 4 + length > |data| || |out| + length > limit {
      StoredRefused(data, p, limit, out);
      return None;
    }
    assert Framed(data, bits.at, length);
    bits.at := bits.at + 4;
    var body := data[bits.at..bits.at + length];
    StoredAccepted(data, p, limit, out, body);
    bits.at := bits.at + length;
    r := Some(out + body);
  }

  lemma PackedRefused(s: seq<bool>, p: nat, limit: nat, out: seq<u8>, h: Header, c: Codes, m: nat)
    requires HeaderAt(s, p, h, c, m) && Read(TokenWriter(c, limit), s, m, out).None?
    ensures NoContent(s, p, limit, out, if h.Fixed? then 1 else 2)
  {
    forall x, o, q: nat | Kind(x) == (if h.Fixed? then 1 else 2) ensures !ContentAt(s, p, limit, x, out, o, q) {
      if ContentAt(s, p, limit, x, out, o, q) {
        ContentPacked(s, p, limit, x.header, x.tokens, out, o, q);
        var d, n := PackedParts(s, p, limit, x.header, x.tokens, out, o, q);
        HeaderUnique(s, p, h, c, m, x.header, d, n);
      }
    }
  }

  lemma PackedAccepted(s: seq<bool>, p: nat, limit: nat, out: seq<u8>, h: Header, c: Codes, m: nat, o: seq<u8>, q: nat)
    requires HeaderAt(s, p, h, c, m) && Read(TokenWriter(c, limit), s, m, out) == Some((o, q))
    ensures SomeContent(s, p, limit, out, if h.Fixed? then 1 else 2, o, q)
  {
    var ts := ReadSome(TokenWriter(c, limit), s, m, out, o, q);
    PackedAt(s, p, limit, h, c, m, ts, out, o, q);
    ContentPacked(s, p, limit, h, ts, out, o, q);
    assert Kind(Packed(h, ts)) == if h.Fixed? then 1 else 2;
  }

  lemma NoHeaderNoContent(s: seq<bool>, p: nat, limit: nat, out: seq<u8>)
    requires NoHeader(s, p)
    ensures NoContent(s, p, limit, out, 2)
  {
    forall x, o, q: nat | Kind(x) == 2 ensures !ContentAt(s, p, limit, x, out, o, q) {
      if ContentAt(s, p, limit, x, out, o, q) {
        ContentPacked(s, p, limit, x.header, x.tokens, out, o, q);
        var d, n := PackedParts(s, p, limit, x.header, x.tokens, out, o, q);
      }
    }
  }

  lemma FixedAt(s: seq<bool>, p: nat)
    requires p <= |s|
    ensures HeaderAt(s, p, Fixed, FixedCodes(), p)
  {
  }

  /** A block of tokens in the fixed codes or in its own. */
  method PackedBlock(bits: Bits, kind: nat, out: seq<u8>, limit: nat) returns (r: Option<seq<u8>>)
    requires bits.Valid() && 1 <= kind <= 2
    modifies bits
    ensures bits.Valid() && bits.Pos() >= old(bits.Pos())
    ensures Did(Stream(bits.data), old(bits.Pos()), limit, out, kind, r, bits.Pos())
  {
    ghost var s, p := Stream(bits.data), bits.Pos();
    var literal: Table, distance: Table;
    ghost var h, c := Fixed, FixedCodes();
    if kind == 1 {
      FixedAt(s, p);
      literal, distance := FixedTables();
    } else {
      var tables;
      tables, h, c := DynamicTables(bits);
      if tables.None? {
        NoHeaderNoContent(s, p, limit, out);
        return None;
      }
      literal, distance := tables.value.0, tables.value.1;
    }
    ghost var m := bits.Pos();
    r := Body(literal, distance, bits, out, limit, c);
    if r.None? {
      PackedRefused(s, p, limit, out, h, c, m);
    } else {
      PackedAccepted(s, p, limit, out, h, c, m, r.value, bits.Pos());
    }
  }

  lemma BlockTurn(limit: nat, s: seq<bool>, p: nat, out: seq<u8>, kind: nat, d: Option<seq<u8>>, q: nat)
    requires p + 3 <= |s| && kind == LowFirst(s[p + 1..p + 3]) && Did(s, p + 3, limit, out, kind, d, q)
    ensures Turned(BlockWriter(limit), s, p, out, if d.None? then None else Some((s[p], d.value)), q)
  {
    NumberIs(s, p + 1, kind, 2);
    if d.None? {
      forall b, o ensures !Item(BlockWriter(limit), s, p, out, b, o) {
        BlockItem(limit, s, p, out, b, o);
        NumberIs(s, p + 1, Kind(b.content), 2);
      }
    } else {
      var x :| Kind(x) == kind && ContentAt(s, p + 3, limit, x, out, d.value, q);
      BlockItem(limit, s, p, out, Block(s[p], x), Outcome(s[p], d.value, q));
    }
  }

  lemma NoBlock(limit: nat, s: seq<bool>, p: nat, out: seq<u8>, q: nat)
    requires p + 3 > |s| || LowFirst(s[p + 1..p + 3]) > 2
    ensures Turned(BlockWriter(limit), s, p, out, None, q)
  {
    forall b, o ensures !Item(BlockWriter(limit), s, p, out, b, o) {
      BlockItem(limit, s, p, out, b, o);
      NumberIs(s, p + 1, Kind(b.content), 2);
    }
  }

  /** One turn of the outer loop: whether the block at the cursor is the last, and the
      output after it. */
  method OneBlock(bits: Bits, out: seq<u8>, limit: nat) returns (r: Option<(bool, seq<u8>)>)
    requires bits.Valid()
    modifies bits
    ensures bits.Valid() && bits.Pos() >= old(bits.Pos())
    ensures r.Some? ==> bits.Pos() > old(bits.Pos())
    ensures Turned(BlockWriter(limit), Stream(bits.data), old(bits.Pos()), out, r, bits.Pos())
  {
    ghost var s, p := Stream(bits.data), bits.Pos();
    var last := bits.TakeOne();
    if last.None? {
      NoBlock(limit, s, p, out, bits.Pos());
      return None;
    }
    var kind := bits.Take(2);
    if kind.None? || kind.value > 2 {
      NoBlock(limit, s, p, out, bits.Pos());
      return None;
    }
    var o;
    if kind.value == 0 {
      o := StoredBlock(bits, out, limit);
    } else {
      o := PackedBlock(bits, kind.value, out, limit);
    }
    BlockTurn(limit, s, p, out, kind.value, o, bits.Pos());
    r := if o.None? then None else Some((last.value == 1, o.value));
  }

  // ---- the stream -------------------------------------------------------------------------------

  datatype Inflated = Inflated(out: seq<u8>, used: nat)

  /** The bits of these blocks begin the data and end at q, and their output is o. */
  ghost predicate Deflates(data: seq<u8>, limit: nat, bs: seq<Block>, o: seq<u8>, q: nat)
  {
    Written(BlockWriter(limit), Stream(data), 0, [], bs, o, q)
  }

  /** r is what any blocks that begin the data expand to, and the bytes they take. */
  ghost predicate OnlyInflates(data: seq<u8>, limit: nat, r: Option<Inflated>)
  {
    forall bs, o, q :: Deflates(data, limit, bs, o, q) ==> r == Some(Inflated(o, ByteFrom(q)))
  }

  /** What any blocks that begin the data expand to, and how many bytes they take; None
      when no blocks do, or they expand past the limit. */
  method Inflate(data: seq<u8>, limit: nat) returns (r: Option<Inflated>, ghost written: seq<Block>, ghost end: nat)
    ensures r.Some? ==> Deflates(data, limit, written, r.value.out, end) && r.value.used == ByteFrom(end)
    ensures OnlyInflates(data, limit, r)
    ensures r.Some? ==> |r.value.out| <= limit && r.value.used <= |data|
  {
    written := [];
    r, end := Blocks(data, limit);
    if r.Some? {
      written := InflateSome(data, limit, r.value.out, end);
      WithinLimit(data, limit, written, r.value.out, end);
    }
    forall bs, o, q | Deflates(data, limit, bs, o, q) ensures r == Some(Inflated(o, ByteFrom(q))) {
      BlocksOneOutcome(data, limit);
      ReadIs(BlockWriter(limit), Stream(data), 0, [], bs, o, q);
    }
  }

  /** The outer loop. */
  method Blocks(data: seq<u8>, limit: nat) returns (r: Option<Inflated>, ghost end: nat)
    ensures Read(BlockWriter(limit), Stream(data), 0, []) == if r.None? then None else Some((r.value.out, end))
    ensures r.Some? ==> r.value.used == ByteFrom(end) && end <= 8 * |data|
  {
    var bits := new Bits(data);
    var out: seq<u8> := [];
    end := 0;
    ghost var s, w := Stream(data), BlockWriter(limit);
    BlocksOneOutcome(data, limit);
    while true
      invariant bits.Valid() && fresh(bits) && bits.data == data
      invariant Read(w, s, 0, []) == Read(w, s, bits.Pos(), out)
      decreases |s| - bits.Pos()
    {
      ghost var p := bits.Pos();
      var step := OneBlock(bits, out, limit);
      ReadTurn(w, s, p, out, step, bits.Pos());
      if step.None? {
        return None, 0;
      }
      if step.value.0 {
        end := bits.Pos();
        bits.Align();
        return Some(Inflated(step.value.1, bits.at)), end;
      }
      out := step.value.1;
    }
  }

  lemma InflateSome(data: seq<u8>, limit: nat, out: seq<u8>, at: nat) returns (bs: seq<Block>)
    requires Read(BlockWriter(limit), Stream(data), 0, []) == Some((out, at))
    ensures Deflates(data, limit, bs, out, at)
  {
    bs := ReadSome(BlockWriter(limit), Stream(data), 0, [], out, at);
  }

  lemma WithinLimit(data: seq<u8>, limit: nat, bs: seq<Block>, out: seq<u8>, at: nat)
    requires Deflates(data, limit, bs, out, at)
    ensures |out| <= limit
  {
    BlocksLimit(limit, limit, bs, [], out);
  }

  // ---- the limit only refuses -------------------------------------------------------------------

  lemma TokenLimit(c: Codes, limit: nat, other: nat, t: Token, out: seq<u8>)
    requires TokenMeans(c, limit, t, out).Some? && |out| <= limit
    ensures var o := TokenMeans(c, limit, t, out).value;
            |out| <= |o.1| <= limit && (|o.1| <= other ==> TokenMeans(c, other, t, out) == Some(o))
  {
  }

  lemma {:induction false} TokensLimit(c: Codes, limit: nat, other: nat, ts: seq<Token>, out: seq<u8>)
    requires Meaning(TokenWriter(c, limit), ts, out).Some? && |out| <= limit
    ensures var o := Meaning(TokenWriter(c, limit), ts, out).value;
            |out| <= |o| <= limit && (|o| <= other ==> Meaning(TokenWriter(c, other), ts, out) == Some(o))
    decreases |ts|
  {
    var m := TokenMeans(c, limit, ts[0], out);
    assert TokenWriter(c, limit).means(ts[0], out) == m;
    assert TokenWriter(c, other).means(ts[0], out) == TokenMeans(c, other, ts[0], out);
    TokenLimit(c, limit, other, ts[0], out);
    if !m.value.0 { TokensLimit(c, limit, other, ts[1..], m.value.1); }
  }

  lemma ContentLimit(limit: nat, other: nat, x: Content, out: seq<u8>)
    requires ContentMeans(limit, x, out).Some? && |out| <= limit
    ensures var o := ContentMeans(limit, x, out).value;
            |out| <= |o| <= limit && (|o| <= other ==> ContentMeans(other, x, out) == Some(o))
  {
    match x
    case Stored(_, _) =>
    case Packed(header, ts) => TokensLimit(HeaderCodes(header).value, limit, other, ts, out);
  }

  /** Output stays within the limit, and no more than the size of the output depends on
      it: a stream means the same under every limit its output is within. */
  lemma {:induction false} BlocksLimit(limit: nat, other: nat, bs: seq<Block>, out: seq<u8>, o: seq<u8>)
    requires Meaning(BlockWriter(limit), bs, out) == Some(o) && |out| <= limit
    ensures |out| <= |o| <= limit
    ensures |o| <= other ==> Meaning(BlockWriter(other), bs, out) == Some(o)
    decreases |bs|
  {
    var m := BlockMeans(limit, bs[0], out);
    assert BlockWriter(limit).means(bs[0], out) == m;
    assert BlockWriter(other).means(bs[0], out) == BlockMeans(other, bs[0], out);
    ContentLimit(limit, other, bs[0].content, out);
    if !m.value.0 { BlocksLimit(limit, other, bs[1..], m.value.1, o); }
  }
}
