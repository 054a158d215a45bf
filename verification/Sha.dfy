/** The streaming buffer and padding of SHA-1, SHA-256, SHA-384 and SHA-512 (sha.rs;
    sections 5.1 and 6 of FIPS 180-4) over an abstract compression function. */
module Sha {
  import opened Words
  import opened Bytes

  type State = seq<u64>

  /** Bytes of a block, of the bit count, of one state word and of the digest. */
  datatype Layout = Layout(block: nat, count: nat, word: nat, output: nat)

  const SHA1 := Layout(64, 8, 4, 20)
  const SHA256 := Layout(64, 8, 4, 32)
  const SHA384 := Layout(128, 16, 8, 48)
  const SHA512 := Layout(128, 16, 8, 64)

  /** A hash: its layout, initial state and compression function. */
  datatype Hash = Hash(layout: Layout, initial: State, compress: (State, seq<u8>) -> State)

  predicate Laid(l: Layout)
  {
    l.count < l.block && 8 * l.block <= Pow2(8 * l.count) && 0 < l.word && l.output % l.word == 0
  }

  ghost predicate KeepsLength(h: Hash, s: State, block: seq<u8>)
  {
    |h.compress(s, block)| == |s|
  }

  ghost predicate Laws(h: Hash)
  {
    && Laid(h.layout) && h.layout.output <= h.layout.word * |h.initial|
    && forall s, block :: KeepsLength(h, s, block)
  }

  lemma LayoutsAreLaid()
    ensures Laid(SHA1) && Laid(SHA256) && Laid(SHA384) && Laid(SHA512)
  {
    assert Pow2(10) == 1024;
    Pow2Monotone(10, 64);
    Pow2Monotone(10, 128);
  }

  // ---- one pass over whole blocks -------------------------------------------------------

  function Blocks(h: Hash, s: State, data: seq<u8>): State
    requires Laid(h.layout)
    decreases |data|
  {
    var block := h.layout.block;
    if |data| < block then s else Blocks(h, h.compress(s, data[..block]), data[block..])
  }

  /** The whole blocks at the front of a message. */
  function Whole(block: nat, message: seq<u8>): (r: seq<u8>)
    requires block > 0
  {
    message[..|message| - |message| % block]
  }

  lemma WholeIs(block: nat, done: seq<u8>, tail: seq<u8>, n: nat)
    requires block > 0 && |done| == block * n && |tail| < block
    ensures Whole(block, done + tail) == done && |done + tail| % block == |tail|
  {
    ModUnique(|done + tail|, block, n, |tail|);
  }

  /** Compressing block after block: a message may be cut at any block boundary. */
  lemma {:induction false} BlocksAppend(h: Hash, s: State, a: seq<u8>, b: seq<u8>, n: nat)
    requires Laid(h.layout) && |a| == h.layout.block * n
    ensures Blocks(h, s, a + b) == Blocks(h, Blocks(h, s, a), b)
    decreases n
  {
    var block := h.layout.block;
    if n == 0 {
      assert a + b == b;
    } else {
      AtLeastOne(block, n);
      assert (a + b)[..block] == a[..block] && (a + b)[block..] == a[block..] + b;
      BlocksAppend(h, h.compress(s, a[..block]), a[block..], b, n - 1);
    }
  }

  lemma AtLeastOne(block: nat, n: nat)
    requires n > 0
    ensures block * n == block * (n - 1) + block
  {
  }

  lemma {:induction false} BlocksKeepLength(h: Hash, s: State, data: seq<u8>)
    requires Laws(h)
    ensures |Blocks(h, s, data)| == |s|
    decreases |data|
  {
    var block := h.layout.block;
    if |data| >= block {
      assert KeepsLength(h, s, data[..block]);
      BlocksKeepLength(h, h.compress(s, data[..block]), data[block..]);
    }
  }

  /** done is n whole blocks, and the state is what they compress to. */
  ghost predicate Done(h: Hash, done: seq<u8>, n: nat, state: State)
  {
    Laid(h.layout) && |done| == h.layout.block * n && state == Blocks(h, h.initial, done)
  }

  lemma DoneNext(h: Hash, done: seq<u8>, n: nat, state: State, block: seq<u8>)
    requires Done(h, done, n, state) && |block| == h.layout.block
    ensures Done(h, done + block, n + 1, h.compress(state, block))
  {
    OneBlock(h, state, block);
    BlocksAppend(h, h.initial, done, block, n);
    AtLeastOne(h.layout.block, n + 1);
  }

  lemma OneBlock(h: Hash, s: State, block: seq<u8>)
    requires Laid(h.layout) && |block| == h.layout.block
    ensures Blocks(h, s, block) == h.compress(s, block)
  {
    assert block[..h.layout.block] == block && |block[h.layout.block..]| == 0;
  }

  // ---- padding ----------------------------------------------------------------------------

  /** The zero bytes between the marker and the bit count, when so many bytes are buffered. */
  function Zeros(l: Layout, filled: nat): nat
    requires Laid(l) && filled < l.block
  {
    if filled < l.block - l.count then l.block - l.count - 1 - filled else 2 * l.block - l.count - 1 - filled
  }

  /** What is appended to a message of n bytes: 0x80, zeros, the bit count big end first. */
  function Padding(l: Layout, n: nat): seq<u8>
    requires Laid(l)
  {
    [0x80] + seq(Zeros(l, n % l.block), i => 0) + Reverse(LittleBytes(8 * n, l.count))
  }

  function Padded(l: Layout, message: seq<u8>): seq<u8>
    requires Laid(l)
  {
    message + Padding(l, |message|)
  }

  /** The zeros are the fewest that end the padded message on a block boundary. */
  lemma PaddingEndsBlock(l: Layout, n: nat)
    requires Laid(l)
    ensures (n + |Padding(l, n)|) % l.block == 0
    ensures forall k :: 0 <= k < Zeros(l, n % l.block) ==> !EndsBlock(l, n, k)
    ensures |Padding(l, n)| == 1 + Zeros(l, n % l.block) + l.count <= l.block + l.count
  {
    QuotientRemainder(n, l.block);
    PaddingEnds(l, n, n / l.block, n % l.block);
  }

  lemma PaddingEnds(l: Layout, n: nat, q: nat, f: nat)
    requires Laid(l) && n == l.block * q + f && f < l.block
    ensures EndsBlock(l, n, Zeros(l, f)) && Zeros(l, f) < l.block
    ensures forall k :: 0 <= k < Zeros(l, f) ==> !EndsBlock(l, n, k)
  {
    if f < l.block - l.count {
      EndsAfter(l, n, q, f, 1);
    } else {
      EndsAfter(l, n, q, f, 2);
    }
    forall k | 0 <= k < Zeros(l, f) ensures !EndsBlock(l, n, k) {
      FewerDoNot(l, n, q, f, k);
    }
  }

  predicate EndsBlock(l: Layout, n: nat, k: nat)
    requires l.block > 0
  {
    (n + 1 + k + l.count) % l.block == 0
  }

  lemma EndsAfter(l: Layout, n: nat, q: nat, f: nat, more: nat)
    requires Laid(l) && n == l.block * q + f && f < l.block
    requires f + 1 + Zeros(l, f) + l.count == l.block * more
    ensures EndsBlock(l, n, Zeros(l, f))
  {
    assert l.block * (q + more) == l.block * q + l.block * more;
    ModUnique(n + 1 + Zeros(l, f) + l.count, l.block, q + more, 0);
  }

  lemma FewerDoNot(l: Layout, n: nat, q: nat, f: nat, k: nat)
    requires Laid(l) && n == l.block * q + f && f < l.block && k < Zeros(l, f)
    ensures !EndsBlock(l, n, k)
  {
    var over := f + 1 + k + l.count;
    if f < l.block - l.count {
      ModUnique(n + 1 + k + l.count, l.block, q, over);
    } else {
      assert l.block * (q + 1) == l.block * q + l.block;
      ModUnique(n + 1 + k + l.count, l.block, q + 1, over - l.block);
    }
  }

  /** Two messages never pad to the same blocks. */
  lemma PaddingInjective(l: Layout, a: seq<u8>, b: seq<u8>)
    requires Laid(l) && Padded(l, a) == Padded(l, b)
    ensures a == b
  {
    var p, q := Padded(l, a), Padded(l, b);
    var n := |p| - l.count;
    PaddingEndsBlock(l, |a|);
    PaddingEndsBlock(l, |b|);
    assert p[n..] == Reverse(LittleBytes(8 * |a|, l.count)) && q[n..] == Reverse(LittleBytes(8 * |b|, l.count));
    ReverseTwice(LittleBytes(8 * |a|, l.count));
    ReverseTwice(LittleBytes(8 * |b|, l.count));
    LittleRoundTrip(8 * |a|, l.count);
    LittleRoundTrip(8 * |b|, l.count);
    if |a| < |b| {
      Close(8 * |a|, 8 * |b|, Pow2(8 * l.count));
    } else {
      Close(8 * |b|, 8 * |a|, Pow2(8 * l.count));
    }
    assert a == p[..|a|] && b == q[..|b|];
  }

  lemma ReverseTwice(s: seq<u8>)
    ensures Reverse(Reverse(s)) == s
  {
  }

  /** Numbers with one remainder and less than the modulus apart are equal. */
  lemma Close(x: int, y: int, m: int)
    requires m > 0 && x % m == y % m && x <= y < x + m
    ensures x == y
  {
    var r := x % m;
    var d := y / m - x / m;
    assert y - x == m * (y / m) - m * (x / m);
    assert m * (y / m) - m * (x / m) == m * d;
    assert d >= 1 ==> m * d >= m;
    assert d <= -1 ==> m * d <= -m;
  }

  // ---- the digest ---------------------------------------------------------------------------

  /** The state words, each big end first. */
  function Spell(s: State, word: nat): seq<u8>
  {
    if s == [] then [] else Reverse(LittleBytes(s[0] as nat, word)) + Spell(s[1..], word)
  }

  /** The digest of a message: one pass over its padded form, cut to the output. */
  function Digest(h: Hash, message: seq<u8>): seq<u8>
    requires Laid(h.layout)
  {
    var all := Spell(Blocks(h, h.initial, Padded(h.layout, message)), h.layout.word);
    if |all| < h.layout.output then all else all[..h.layout.output]
  }

  lemma {:induction false} SpellAppend(a: State, b: State, word: nat)
    ensures Spell(a + b, word) == Spell(a, word) + Spell(b, word)
  {
    if a == [] {
      assert a + b == b;
    } else {
      SpellAppend(a[1..], b, word);
      assert (a + b)[1..] == a[1..] + b && (a + b)[0] == a[0];
      Regroup(Reverse(LittleBytes(a[0] as nat, word)), Spell(a[1..], word), Spell(b, word));
    }
  }

  lemma Regroup(x: seq<u8>, y: seq<u8>, z: seq<u8>)
    ensures x + (y + z) == x + y + z
  {
  }

  lemma {:induction false} SpellNext(s: State, i: nat, word: nat)
    requires i < |s|
    ensures Spell(s[..i + 1], word) == Spell(s[..i], word) + Reverse(LittleBytes(s[i] as nat, word))
  {
    SpellAppend(s[..i], [s[i]], word);
    assert s[..i + 1] == s[..i] + [s[i]];
    SpellOne(s[i], word);
  }

  lemma SpellOne(w: u64, word: nat)
    ensures Spell([w], word) == Reverse(LittleBytes(w as nat, word))
  {
    assert [w][1..] == [];
    assert Spell([w], word) == Reverse(LittleBytes(w as nat, word)) + Spell([w][1..], word);
  }

  lemma {:induction false} SpellLength(s: State, word: nat)
    ensures |Spell(s, word)| == word * |s|
  {
    if s != [] {
      SpellLength(s[1..], word);
      AtLeastOne(word, |s|);
    }
  }

  /** What is buffered and the state, when these bytes were absorbed. */
  ghost predicate Holds(h: Hash, message: seq<u8>, buffered: seq<u8>, state: State)
    requires Laid(h.layout)
  {
    && |buffered| == |message| % h.layout.block
    && message == Whole(h.layout.block, message) + buffered
    && state == Blocks(h, h.initial, Whole(h.layout.block, message))
  }

  /** The count of the bytes absorbed wraps around in its integer. */
  ghost predicate Counts(h: Hash, message: seq<u8>, length: nat)
  {
    length == |message| % Pow2(8 * h.layout.count)
  }

  lemma DoneHolds(h: Hash, done: seq<u8>, tail: seq<u8>, n: nat, message: seq<u8>, state: State)
    requires Done(h, done, n, state) && |tail| < h.layout.block && message == done + tail
    ensures Holds(h, message, tail, state)
  {
    WholeIs(h.layout.block, done, tail, n);
  }

  lemma HoldsDone(h: Hash, message: seq<u8>, buffered: seq<u8>, state: State) returns (done: seq<u8>, n: nat)
    requires Laid(h.layout) && Holds(h, message, buffered, state)
    ensures Done(h, done, n, state) && message == done + buffered
  {
    QuotientRemainder(|message|, h.layout.block);
    done, n := Whole(h.layout.block, message), |message| / h.layout.block;
  }

  lemma CountsMore(h: Hash, message: seq<u8>, length: nat, data: seq<u8>)
    requires Counts(h, message, length)
    ensures Counts(h, message + data, (length + |data|) % Pow2(8 * h.layout.count))
  {
    LengthGrows(|message|, |data|, Pow2(8 * h.layout.count));
  }

  // ---- the streaming hash ---------------------------------------------------------------------

  /** Copy data into an array from a position on. */
  method Write(to: array<u8>, at: nat, data: seq<u8>)
    requires at + |data| <= to.Length
    modifies to
    ensures to[..at + |data|] == old(to[..at]) + data && to[at + |data|..] == old(to[at + |data|..])
  {
    forall i | 0 <= i < |data| {
      to[at + i] := data[i];
    }
  }

  lemma Spliced(tail: seq<u8>, zeros: nat, count: seq<u8>, padding: seq<u8>)
    requires 1 + zeros + |count| <= |tail| && tail[0] == 0x80 && (forall i :: 1 <= i < 1 + zeros ==> tail[i] == 0)
    requires tail[1 + zeros..1 + zeros + |count|] == count && padding == [0x80] + seq(zeros, i => 0) + count
    ensures tail[..1 + zeros + |count|] == padding
  {
  }

  /** A hash under way.  `message` is all that was absorbed; Valid says that the fields
      depend on nothing else, so not on how it was cut into calls. */
  class Hasher {
    const h: Hash
    var state: State
    const buffer: array<u8>
    var filled: nat
    var length: nat

    ghost var message: seq<u8>

    ghost predicate Valid()
      reads this, buffer
    {
      && Laws(h) && buffer.Length == h.layout.block
      && filled < h.layout.block && Holds(h, message, buffer[..filled], state) && Counts(h, message, length)
    }

    constructor (hash: Hash)
      requires Laws(hash)
      ensures Valid() && h == hash && message == [] && fresh(buffer)
    {
      h := hash;
      state := hash.initial;
      buffer := new u8[hash.layout.block](i => 0);
      filled, length := 0, 0;
      message := [];
      new;
      ModUnique(0, h.layout.block, 0, 0);
      ModUnique(0, Pow2(8 * h.layout.count), 0, 0);
    }

    /** Fill the started block, and compress it when it is full; answers what is left. */
    method TopUp(data: seq<u8>, ghost done: seq<u8>, ghost n: nat) returns (rest: seq<u8>, ghost now: seq<u8>, ghost m: nat)
      requires Laid(h.layout) && buffer.Length == h.layout.block && 0 < filled < buffer.Length && Done(h, done, n, state)
      modifies this`state, this`filled, buffer
      ensures filled < buffer.Length && (filled > 0 ==> rest == []) && Done(h, now, m, state)
      ensures now + buffer[..filled] + rest == done + old(buffer[..filled]) + data
    {
      var take := if buffer.Length - filled < |data| then buffer.Length - filled else |data|;
      Write(buffer, filled, data[..take]);
      filled := filled + take;
      rest, now, m := data[take..], done, n;
      assert buffer[..filled] + rest == old(buffer[..filled]) + data;
      if filled == buffer.Length {
        assert buffer[..filled] == buffer[..];
        DoneNext(h, done, n, state, buffer[..]);
        state := h.compress(state, buffer[..]);
        filled := 0;
        now, m := done + buffer[..], n + 1;
      }
    }

    /** With nothing buffered, compress the whole blocks of data and buffer what is left. */
    method Bulk(data: seq<u8>, ghost done: seq<u8>, ghost n: nat) returns (ghost now: seq<u8>, ghost m: nat)
      requires Laid(h.layout) && buffer.Length == h.layout.block && filled == 0 && Done(h, done, n, state)
      modifies this`state, this`filled, buffer
      ensures filled < buffer.Length && Done(h, now, m, state) && now + buffer[..filled] == done + data
    {
      var block := h.layout.block;
      var rest := data;
      now, m := done, n;
      while |rest| >= block
        invariant now + rest == done + data && Done(h, now, m, state)
      {
        DoneNext(h, now, m, state, rest[..block]);
        assert (now + rest[..block]) + rest[block..] == now + rest;
        state := h.compress(state, rest[..block]);
        now, m := now + rest[..block], m + 1;
        rest := rest[block..];
      }
      Write(buffer, 0, rest);
      filled := |rest|;
    }

    method Absorb(data: seq<u8>)
      requires Valid()
      modifies this, buffer
      ensures Valid() && message == old(message) + data
    {
      var block := h.layout.block;
      ghost var done, n := HoldsDone(h, message, buffer[..filled], state);
      CountsMore(h, message, length, data);
      length := (length + |data|) % Pow2(8 * h.layout.count);
      message := message + data;
      var rest := data;
      if filled > 0 {
        rest, done, n := TopUp(data, done, n);
        if filled > 0 {
          DoneHolds(h, done, buffer[..filled], n, message, state);
          return;
        }
      }
      done, n := Bulk(rest, done, n);
      DoneHolds(h, done, buffer[..filled], n, message, state);
    }

    /** Absorb the padding of what was absorbed so far. */
    method Pad()
      requires Valid()
      modifies this, buffer
      ensures Valid() && filled == 0 && message == Padded(h.layout, old(message))
      ensures state == Blocks(h, h.initial, message)
    {
      var tail := PaddingBytes();
      PaddingEndsBlock(h.layout, |message|);
      Absorb(tail);
      assert Whole(h.layout.block, message) == message;
    }

    /** The padding of what was absorbed so far. */
    method PaddingBytes() returns (padding: seq<u8>)
      requires Valid()
      ensures padding == Padding(h.layout, |message|)
    {
      var l := h.layout;
      var bits := length * 8 % Pow2(8 * l.count);
      var zeros := if filled < l.block - l.count then l.block - l.count - 1 - filled else 2 * l.block - l.count - 1 - filled;
      BitsAre(|message|, l.count);
      PaddingEndsBlock(l, |message|);
      padding := Tail(l.block + l.count, zeros, Reverse(LittleBytes(bits, l.count)));
    }

    /** A one bit, zeros and the count, made in an array that is long enough for any. */
    static method Tail(size: nat, zeros: nat, count: seq<u8>) returns (padding: seq<u8>)
      requires 1 + zeros + |count| <= size
      ensures padding == [0x80] + seq(zeros, i => 0) + count
    {
      var tail := new u8[size](i => 0);
      tail[0] := 0x80;
      Write(tail, 1 + zeros, count);
      Spliced(tail[..], zeros, count, [0x80] + seq(zeros, i => 0) + count);
      padding := tail[..1 + zeros + |count|];
    }

    /** The digest, written into `out`. */
    method Finish(out: array<u8>)
      requires Valid() && out.Length == h.layout.output && out != buffer
      modifies this, buffer, out
      ensures out[..] == Digest(h, old(message))
    {
      Pad();
      BlocksKeepLength(h, h.initial, message);
      Emit(state, h.layout.word, out);
    }
  }

  /** Write the state words into `out`, each big end first, until it is full. */
  method Emit(state: State, word: nat, out: array<u8>)
    requires 0 < word && out.Length % word == 0 && out.Length <= word * |state|
    modifies out
    ensures out.Length <= |Spell(state, word)| && out[..] == Spell(state, word)[..out.Length]
  {
    SpellLength(state, word);
    var i := 0;
    while word * i < out.Length && i < |state|
      invariant i <= |state| && word * i <= out.Length
      invariant out[..word * i] == Spell(state[..i], word)
    {
      WholeChunks(word, i, out.Length);
      Write(out, word * i, Reverse(LittleBytes(state[i] as nat, word)));
      SpellNext(state, i, word);
      AtLeastOne(word, i + 1);
      i := i + 1;
    }
    SpellAppend(state[..i], state[i..], word);
    assert state == state[..i] + state[i..];
    assert out[..word * i] == out[..];
  }

  /** The hash of one piece of data. */
  method OneShot(hash: Hash, data: seq<u8>) returns (out: array<u8>)
    requires Laws(hash)
    ensures fresh(out) && out[..] == Digest(hash, data)
  {
    var hasher := new Hasher(hash);
    hasher.Absorb(data);
    assert hasher.message == data;
    out := new u8[hash.layout.output](i => 0);
    hasher.Finish(out);
  }

  /** A chunk that starts inside the output ends inside it. */
  lemma WholeChunks(word: nat, i: nat, length: nat)
    requires 0 < word && length % word == 0 && word * i < length
    ensures word * i + word <= length
  {
    QuotientRemainder(length, word);
    InsideBelow(word, i, length / word);
  }

  lemma InsideBelow(word: nat, i: nat, q: nat)
    requires word * i < word * q
    ensures word * i + word <= word * q
  {
    if q <= i {
      ProductBound(word, q, word, i);
    } else {
      ProductBound(word, i + 1, word, q);
    }
    AtLeastOne(word, i + 1);
  }

  lemma LengthGrows(a: nat, b: nat, m: nat)
    requires m > 0
    ensures (a % m + b) % m == (a + b) % m
  {
    var x := a % m + b;
    QuotientRemainder(a, m);
    QuotientRemainder(x, m);
    assert a + b == m * (a / m) + x;
    assert m * (a / m) + m * (x / m) == m * (a / m + x / m);
    ModUnique(a + b, m, a / m + x / m, x % m);
  }

  /** The wrapping product with 8 writes the low bits of the bit count. */
  lemma BitsAre(n: nat, count: nat)
    ensures var m := Pow2(8 * count);
            LittleBytes(n % m * 8 % m, count) == LittleBytes(8 * n, count)
  {
    var m := Pow2(8 * count);
    TimesEight(n, m);
    LittleBytesModulo(8 * n, count);
  }

  lemma TimesEight(n: nat, m: nat)
    requires m > 0
    ensures n % m * 8 % m == 8 * n % m
  {
    var q, r := n / m, n % m;
    QuotientRemainder(n, m);
    QuotientRemainder(r * 8, m);
    assert m * (8 * q + r * 8 / m) == 8 * (m * q) + m * (r * 8 / m);
    ModUnique(8 * n, m, 8 * q + r * 8 / m, r * 8 % m);
  }
}
