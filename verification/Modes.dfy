/** CFB and key wrap over any block cipher (aes.rs; section 6.3 of SP 800-38A and
    section 2.2 of RFC 3394). */
module Modes {
  import opened Options
  import opened Words
  import opened Bytes
  import opened Rijndael

  function Min(a: nat, b: nat): nat
  {
    if a < b then a else b
  }

  /** The bytes xor-ed with the leading bytes of the key. */
  function XorWith(s: seq<u8>, key: seq<u8>): (r: seq<u8>)
    requires |s| <= |key|
    ensures |r| == |s|
  {
    seq(|s|, i requires 0 <= i < |s| => XorByte(s[i], key[i]))
  }

  lemma XorWithCancels(s: seq<u8>, key: seq<u8>)
    requires |s| <= |key|
    ensures XorWith(XorWith(s, key), key) == s
  {
    forall i | 0 <= i < |s| ensures XorWith(XorWith(s, key), key)[i] == s[i] { XorByteCancels(s[i], key[i]); }
  }

  // ---- CFB -------------------------------------------------------------------------------

  /** Each block is xor-ed with the encryption of the ciphertext block before it; a last
      partial block with the leading bytes of its key block. */
  function CfbEncrypted(f: Block -> Block, iv: Block, data: seq<u8>): (r: seq<u8>)
    ensures |r| == |data|
    decreases |data|
  {
    if |data| <= 16 then XorWith(data, f(iv))
    else var c: Block := XorWith(data[..16], f(iv)); c + CfbEncrypted(f, c, data[16..])
  }

  function CfbDecrypted(f: Block -> Block, iv: Block, data: seq<u8>): (r: seq<u8>)
    ensures |r| == |data|
    decreases |data|
  {
    if |data| <= 16 then XorWith(data, f(iv))
    else XorWith(data[..16], f(iv)) + CfbDecrypted(f, data[..16], data[16..])
  }

  /** Decryption undoes encryption, whatever the block function, at every length. */
  lemma {:induction false} CfbInverse(f: Block -> Block, iv: Block, data: seq<u8>)
    ensures CfbDecrypted(f, iv, CfbEncrypted(f, iv, data)) == data
    ensures CfbEncrypted(f, iv, CfbDecrypted(f, iv, data)) == data
    decreases |data|
  {
    if |data| <= 16 {
      XorWithCancels(data, f(iv));
    } else {
      var c: Block := XorWith(data[..16], f(iv));
      XorWithCancels(data[..16], f(iv));
      CfbInverse(f, c, data[16..]);
      CfbInverse(f, data[..16], data[16..]);
      assert data == data[..16] + data[16..];
      Split(c, CfbEncrypted(f, c, data[16..]));
      Split(c, CfbDecrypted(f, data[..16], data[16..]));
    }
  }

  lemma Split(c: Block, rest: seq<u8>)
    ensures var a: seq<u8> := c; (a + rest)[..16] == a && (a + rest)[16..] == rest
  {
  }

  /** A piece of the data xor-ed with the leading bytes of a key block. */
  method XorPiece(data: array<u8>, at: nat, n: nat, key: Block)
    requires at + n <= data.Length && n <= 16
    modifies data
    ensures data[..] == old(data[..at]) + XorWith(old(data[at..at + n]), key) + old(data[at + n..])
  {
    for i := 0 to n
      invariant forall j :: 0 <= j < at ==> data[j] == old(data[j])
      invariant forall j :: 0 <= j < i ==> data[at + j] == XorByte(old(data[at + j]), key[j])
      invariant forall j :: at + i <= j < data.Length ==> data[j] == old(data[j])
    {
      data[at + i] := XorByte(data[at + i], key[i]);
    }
  }

  /** What of the data is left to do is none, or as the mode does it from here on. */
  function Left(mode: (Block, seq<u8>) -> seq<u8>, feedback: Block, rest: seq<u8>): seq<u8>
  {
    if rest == [] then [] else mode(feedback, rest)
  }

  function Encrypting(f: Block -> Block): (Block, seq<u8>) -> seq<u8>
  {
    (b: Block, s: seq<u8>) => CfbEncrypted(f, b, s)
  }

  function Decrypting(f: Block -> Block): (Block, seq<u8>) -> seq<u8>
  {
    (b: Block, s: seq<u8>) => CfbDecrypted(f, b, s)
  }

  lemma CfbEncryptStep(f: Block -> Block, iv: Block, rest: seq<u8>, n: nat)
    requires rest != [] && n == Min(16, |rest|)
    ensures var c := XorWith(rest[..n], f(iv));
      CfbEncrypted(f, iv, rest) == c + Left(Encrypting(f), c + f(iv)[n..], rest[n..])
  {
    if |rest| <= 16 {
      assert rest[..n] == rest;
    } else {
      assert XorWith(rest[..16], f(iv)) + f(iv)[16..] == XorWith(rest[..16], f(iv));
    }
  }

  lemma CfbDecryptStep(f: Block -> Block, iv: Block, rest: seq<u8>, n: nat)
    requires rest != [] && n == Min(16, |rest|)
    ensures CfbDecrypted(f, iv, rest)
      == XorWith(rest[..n], f(iv))
         + Left(Decrypting(f), rest[..n] + seq(16 - n, i => 0), rest[n..])
  {
    if |rest| <= 16 {
      assert rest[..n] == rest;
    } else {
      assert rest[..16] + seq(0, i => 0) == rest[..16];
    }
  }

  /** Where the pieces stand after one more of them is done. */
  lemma Pieces(done: seq<u8>, piece: seq<u8>, now: seq<u8>, was: seq<u8>, at: nat, n: nat)
    requires |done| == at && |piece| == n && at + n <= |was| && now == done + piece + was[at + n..]
    ensures now[..at + n] == done + piece && now[at..at + n] == piece && now[at + n..] == was[at + n..]
    ensures was[at..][n..] == was[at + n..] && was[at..][..n] == was[at..at + n]
  {
  }

  /** The state of a CFB loop: done up to `at`, and the rest as the mode goes on with it. */
  ghost predicate Halfway(mode: (Block, seq<u8>) -> seq<u8>, all: seq<u8>, was: seq<u8>, now: seq<u8>, at: nat, feedback: Block)
  {
    at <= |was| == |now| && now[at..] == was[at..] && all == now[..at] + Left(mode, feedback, was[at..])
  }

  lemma EncryptedPiece(f: Block -> Block, all: seq<u8>, was: seq<u8>, before: seq<u8>, now: seq<u8>, at: nat, n: nat, feedback: Block)
    requires Halfway(Encrypting(f), all, was, before, at, feedback) && at < |was| && n == Min(16, |was| - at)
    requires now == before[..at] + XorWith(before[at..at + n], f(feedback)) + before[at + n..]
    ensures |now| == |was| && Halfway(Encrypting(f), all, was, now, at + n, now[at..at + n] + f(feedback)[n..])
  {
    var rest, done := was[at..], before[..at];
    assert before[at..at + n] == rest[..n] && before[at + n..] == was[at + n..] by {
      assert before[at..][..n] == before[at..at + n] && before[at..][n..] == before[at + n..];
    }
    CfbEncryptStep(f, feedback, rest, n);
    Pieces(done, XorWith(rest[..n], f(feedback)), now, was, at, n);
    Regroup(done, XorWith(rest[..n], f(feedback)), Left(Encrypting(f), now[at..at + n] + f(feedback)[n..], rest[n..]));
  }

  lemma Regroup<T>(x: seq<T>, y: seq<T>, z: seq<T>)
    ensures x + (y + z) == (x + y) + z
  {
  }

  lemma DecryptedPiece(f: Block -> Block, all: seq<u8>, was: seq<u8>, before: seq<u8>, now: seq<u8>, at: nat, n: nat, feedback: Block)
    requires Halfway(Decrypting(f), all, was, before, at, feedback) && at < |was| && n == Min(16, |was| - at)
    requires now == before[..at] + XorWith(before[at..at + n], f(feedback)) + before[at + n..]
    ensures |now| == |was| && Halfway(Decrypting(f), all, was, now, at + n, before[at..at + n] + seq(16 - n, i => 0))
  {
    var rest, done := was[at..], before[..at];
    assert before[at..at + n] == rest[..n] && before[at + n..] == was[at + n..] by {
      assert before[at..][..n] == before[at..at + n] && before[at..][n..] == before[at + n..];
    }
    CfbDecryptStep(f, feedback, rest, n);
    Pieces(done, XorWith(rest[..n], f(feedback)), now, was, at, n);
    Regroup(done, XorWith(rest[..n], f(feedback)), Left(Decrypting(f), before[at..at + n] + seq(16 - n, i => 0), rest[n..]));
  }

  method CfbEncrypt(f: Block -> Block, iv: Block, data: array<u8>)
    modifies data
    ensures data[..] == CfbEncrypted(f, iv, old(data[..]))
  {
    var feedback: Block := iv;
    var at := 0;
    ghost var was, all := data[..], CfbEncrypted(f, iv, data[..]);
    assert was[0..] == was;
    while at < data.Length
      invariant Halfway(Encrypting(f), all, was, data[..], at, feedback)
    {
      var n := Min(16, data.Length - at);
      ghost var before := data[..];
      ghost var last := feedback;
      feedback := f(feedback);
      XorPiece(data, at, n, feedback);
      EncryptedPiece(f, all, was, before, data[..], at, n, last);
      var kept := feedback[n..];
      assert |kept| == 16 - n;
      feedback := data[at..at + n] + kept;
      at := at + n;
    }
  }

  method CfbDecrypt(f: Block -> Block, iv: Block, data: array<u8>)
    modifies data
    ensures data[..] == CfbDecrypted(f, iv, old(data[..]))
  {
    var feedback: Block := iv;
    var at := 0;
    ghost var was, all := data[..], CfbDecrypted(f, iv, data[..]);
    assert was[0..] == was;
    while at < data.Length
      invariant Halfway(Decrypting(f), all, was, data[..], at, feedback)
    {
      var n := Min(16, data.Length - at);
      ghost var before := data[..];
      ghost var last := feedback;
      var next: Block := data[at..at + n] + seq(16 - n, i => 0);
      feedback := f(feedback);
      XorPiece(data, at, n, feedback);
      DecryptedPiece(f, all, was, before, data[..], at, n, last);
      feedback := next;
      at := at + n;
    }
  }

  // ---- key wrap ------------------------------------------------------------------------------

  type Half = s: seq<u8> | |s| == 8 witness seq(8, i => 0)

  /** The running check half and the n halves of key data. */
  datatype Wrapping = Wrapping(a: Half, r: seq<Half>)

  /** The low 64 bits of t, high byte first: `t.to_be_bytes()`. */
  function CounterBytes(t: nat): Half
  {
    Reverse(LittleBytes(t, 8))
  }

  function JoinHalves(a: Half, b: Half): Block
  {
    var (x: seq<u8>, y: seq<u8>) := (a, b);
    x + y
  }

  /** Step t of wrapping, on half i. */
  function WrapStep(f: Block -> Block, t: nat, i: nat, w: Wrapping): Wrapping
    requires i < |w.r|
  {
    var b := f(JoinHalves(w.a, w.r[i]));
    Wrapping(XorWith(b[..8], CounterBytes(t)), w.r[i := b[8..]])
  }

  function UnwrapStep(f: Block -> Block, t: nat, i: nat, w: Wrapping): Wrapping
    requires i < |w.r|
  {
    var b := f(JoinHalves(XorWith(w.a, CounterBytes(t)), w.r[i]));
    Wrapping(b[..8], w.r[i := b[8..]])
  }

  lemma StepsInverse(c: Cipher, t: nat, i: nat, w: Wrapping)
    requires Inverse(c) && i < |w.r|
    ensures UnwrapStep(c.decrypt, t, i, WrapStep(c.encrypt, t, i, w)) == w
    ensures WrapStep(c.encrypt, t, i, UnwrapStep(c.decrypt, t, i, w)) == w
  {
    var b := c.encrypt(JoinHalves(w.a, w.r[i]));
    XorWithCancels(b[..8], CounterBytes(t));
    assert InverseAt(c, JoinHalves(w.a, w.r[i]));
    HalvesOf(b);
    JoinApart(w.a, w.r[i]);
    var x: Half := XorWith(w.a, CounterBytes(t));
    var d := c.decrypt(JoinHalves(x, w.r[i]));
    XorWithCancels(w.a, CounterBytes(t));
    assert InverseAt(c, JoinHalves(x, w.r[i]));
    HalvesOf(d);
    JoinApart(x, w.r[i]);
    assert w.r[i := b[8..]][i := w.r[i]] == w.r && w.r[i := d[8..]][i := w.r[i]] == w.r;
  }

  lemma HalvesOf(b: Block)
    ensures JoinHalves(b[..8], b[8..]) == b
  {
  }

  lemma JoinApart(a: Half, b: Half)
    ensures JoinHalves(a, b)[..8] == a && JoinHalves(a, b)[8..] == b
  {
  }

  /** After the first k of all steps: step k works on half (k - 1) mod n and counts k. */
  function Wrapped(f: Block -> Block, w: Wrapping, k: nat): (r: Wrapping)
    requires w.r != []
    ensures |r.r| == |w.r|
  {
    if k == 0 then w else WrapStep(f, k, (k - 1) % |w.r|, Wrapped(f, w, k - 1))
  }

  /** After undoing steps k down to 1. */
  function Unwrapped(f: Block -> Block, w: Wrapping, k: nat): (r: Wrapping)
    requires w.r != []
    ensures |r.r| == |w.r|
    decreases k
  {
    if k == 0 then w else Unwrapped(f, UnwrapStep(f, k, (k - 1) % |w.r|, w), k - 1)
  }

  lemma {:induction false} UnwrapsWhatIsWrapped(c: Cipher, w: Wrapping, k: nat)
    requires Inverse(c) && w.r != []
    ensures Unwrapped(c.decrypt, Wrapped(c.encrypt, w, k), k) == w
  {
    if k > 0 {
      StepsInverse(c, k, (k - 1) % |w.r|, Wrapped(c.encrypt, w, k - 1));
      UnwrapsWhatIsWrapped(c, w, k - 1);
    }
  }

  lemma {:induction false} WrapsWhatIsUnwrapped(c: Cipher, w: Wrapping, k: nat)
    requires Inverse(c) && w.r != []
    ensures Wrapped(c.encrypt, Unwrapped(c.decrypt, w, k), k) == w
    decreases k
  {
    if k > 0 {
      var u := UnwrapStep(c.decrypt, k, (k - 1) % |w.r|, w);
      WrapsWhatIsUnwrapped(c, u, k - 1);
      StepsInverse(c, k, (k - 1) % |w.r|, w);
    }
  }

  function Halves(s: seq<u8>): (r: seq<Half>)
    requires |s| % 8 == 0
    ensures 8 * |r| == |s|
  {
    if s == [] then [] else [s[..8]] + Halves(s[8..])
  }

  function Flat(r: seq<Half>): (s: seq<u8>)
    ensures |s| == 8 * |r|
  {
    if r == [] then [] else r[0] + Flat(r[1..])
  }

  lemma {:induction false} FlatHalves(s: seq<u8>)
    requires |s| % 8 == 0
    ensures Flat(Halves(s)) == s
  {
    if s != [] {
      FlatHalves(s[8..]);
      assert Halves(s)[1..] == Halves(s[8..]);
    }
  }

  lemma {:induction false} HalvesFlat(r: seq<Half>)
    ensures Halves(Flat(r)) == r
  {
    if r != [] {
      HalvesFlat(r[1..]);
      var s := Flat(r);
      assert s[..8] == r[0] && s[8..] == Flat(r[1..]);
    }
  }

  const CHECK: Half := [0xa6, 0xa6, 0xa6, 0xa6, 0xa6, 0xa6, 0xa6, 0xa6]

  /** The wrapped key; None unless the key is two or more whole halves. */
  function KeyWrapped(f: Block -> Block, key: seq<u8>): Option<seq<u8>>
  {
    if |key| < 16 || |key| % 8 != 0 then None
    else
      var w := Wrapped(f, Wrapping(CHECK, Halves(key)), 6 * (|key| / 8));
      Some(Flat([w.a] + w.r))
  }

  /** The key a wrapped key holds; None when its check half is not as it should be. */
  function KeyUnwrapped(f: Block -> Block, wrapped: seq<u8>): Option<seq<u8>>
  {
    if |wrapped| < 24 || |wrapped| % 8 != 0 then None
    else
      var w := Unwrapped(f, Wrapping(wrapped[..8], Halves(wrapped[8..])), 6 * (|wrapped| / 8 - 1));
      if w.a == CHECK then Some(Flat(w.r)) else None
  }

  /** The parts a wrapped key is cut into, and the key in halves, put together again. */
  lemma Recut(w: Wrapping, whole: seq<u8>)
    requires whole == Flat([w.a] + w.r)
    ensures |whole| == 8 + 8 * |w.r| && whole[..8] == w.a && whole[8..] == Flat(w.r) && Halves(whole[8..]) == w.r
  {
    assert ([w.a] + w.r)[1..] == w.r;
    HalvesFlat(w.r);
  }

  lemma Cut(wrapped: seq<u8>)
    requires |wrapped| >= 8 && |wrapped| % 8 == 0
    ensures Flat([wrapped[..8]] + Halves(wrapped[8..])) == wrapped
  {
    FlatHalves(wrapped[8..]);
    assert ([wrapped[..8]] + Halves(wrapped[8..]))[1..] == Halves(wrapped[8..]);
    assert wrapped == wrapped[..8] + wrapped[8..];
  }

  lemma UnwrapGivesWrap(c: Cipher, wrapped: seq<u8>, key: seq<u8>)
    requires Inverse(c) && KeyUnwrapped(c.decrypt, wrapped) == Some(key)
    ensures KeyWrapped(c.encrypt, key) == Some(wrapped)
  {
    var from := Wrapping(wrapped[..8], Halves(wrapped[8..]));
    Cut(wrapped);
    UnwrapsFrom(c, |wrapped| / 8 - 1, key, from);
  }

  lemma UnwrapsFrom(c: Cipher, n: nat, key: seq<u8>, from: Wrapping)
    requires Inverse(c) && |from.r| == n >= 2
    requires var w := Unwrapped(c.decrypt, from, 6 * n); w.a == CHECK && key == Flat(w.r)
    ensures KeyWrapped(c.encrypt, key) == Some(Flat([from.a] + from.r))
  {
    WrapsWhatIsUnwrapped(c, from, 6 * n);
    WrapsFrom(c, Unwrapped(c.decrypt, from, 6 * n), n, key, from);
  }

  /** A key in n halves wraps to what all steps from it give. */
  lemma WrapsFrom(c: Cipher, w: Wrapping, n: nat, key: seq<u8>, from: Wrapping)
    requires |w.r| == n >= 2 && w.a == CHECK && key == Flat(w.r) && Wrapped(c.encrypt, w, 6 * n) == from
    ensures KeyWrapped(c.encrypt, key) == Some(Flat([from.a] + from.r))
  {
    HalvesFlat(w.r);
    assert |key| / 8 == n && |key| % 8 == 0;
    assert Wrapping(CHECK, Halves(key)) == w;
  }

  lemma WrapGivesUnwrap(c: Cipher, wrapped: seq<u8>, key: seq<u8>)
    requires Inverse(c) && KeyWrapped(c.encrypt, key) == Some(wrapped)
    ensures KeyUnwrapped(c.decrypt, wrapped) == Some(key)
  {
    var n := |key| / 8;
    var from := Wrapping(CHECK, Halves(key));
    var k := 6 * n;
    var w := Wrapped(c.encrypt, from, k);
    UnwrapsWhatIsWrapped(c, from, k);
    Recut(w, wrapped);
    FlatHalves(key);
    assert |wrapped| / 8 - 1 == n;
    assert Wrapping(wrapped[..8], Halves(wrapped[8..])) == w;
    assert Unwrapped(c.decrypt, Wrapping(wrapped[..8], Halves(wrapped[8..])), 6 * (|wrapped| / 8 - 1)) == from;
  }

  /** Unwrapping finds a key exactly when wrapping that key gives what was unwrapped. */
  lemma UnwrapsExactly(c: Cipher, wrapped: seq<u8>, key: seq<u8>)
    requires Inverse(c)
    ensures KeyUnwrapped(c.decrypt, wrapped) == Some(key) <==> KeyWrapped(c.encrypt, key) == Some(wrapped)
  {
    if KeyUnwrapped(c.decrypt, wrapped) == Some(key) {
      UnwrapGivesWrap(c, wrapped, key);
    }
    if KeyWrapped(c.encrypt, key) == Some(wrapped) {
      WrapGivesUnwrap(c, wrapped, key);
    }
  }

  lemma PassStarts(n: nat, j: nat)
    requires n > 0
    ensures (n * j) % n == 0 && n * j + n == n * (j + 1)
  {
    ModUnique(n * j, n, j, 0);
  }

  lemma StepIndex(n: nat, m: nat, i: nat)
    requires i < n && m % n == 0
    ensures (m + i) % n == i
  {
    QuotientRemainder(m, n);
    ModUnique(m + i, n, m / n, i);
  }

  /** Wrapping, by the number of steps done. */
  ghost function Wrappings(f: Block -> Block, from: Wrapping): nat -> Wrapping
    requires from.r != []
  {
    (k: nat) => Wrapped(f, from, k)
  }

  ghost predicate WrapsAt(f: Block -> Block, done: nat -> Wrapping, n: nat, t: nat)
    requires n > 0
  {
    |done(t).r| == n && done(t + 1) == WrapStep(f, t + 1, t % n, done(t))
  }

  ghost predicate Wraps(f: Block -> Block, done: nat -> Wrapping, n: nat)
  {
    n > 0 && forall t: nat :: WrapsAt(f, done, n, t)
  }

  /** Unwrapping, by what is unwrapped and the number of steps to undo. */
  ghost function Unwrappings(f: Block -> Block, n: nat): (Wrapping, nat) -> Wrapping
    requires n > 0
  {
    (w: Wrapping, k: nat) => if |w.r| == n then Unwrapped(f, w, k) else w
  }

  ghost predicate UnwrapsAt(f: Block -> Block, undone: (Wrapping, nat) -> Wrapping, n: nat, w: Wrapping, t: nat)
    requires n > 0
  {
    |w.r| == n ==> undone(w, t + 1) == undone(UnwrapStep(f, t + 1, t % n, w), t)
  }

  ghost predicate Unwraps(f: Block -> Block, undone: (Wrapping, nat) -> Wrapping, n: nat)
  {
    n > 0 && forall w: Wrapping, t: nat :: UnwrapsAt(f, undone, n, w, t)
  }

  lemma WrappingsWrap(f: Block -> Block, from: Wrapping)
    requires from.r != []
    ensures Wraps(f, Wrappings(f, from), |from.r|)
  {
  }

  lemma UnwrappingsUnwrap(f: Block -> Block, n: nat)
    requires n > 0
    ensures Unwraps(f, Unwrappings(f, n), n)
  {
  }

  /** One pass over all halves, after m steps. */
  method WrapPass(f: Block -> Block, n: nat, m: nat, start: Wrapping, ghost done: nat -> Wrapping) returns (w: Wrapping)
    requires Wraps(f, done, n) && |start.r| == n && m % n == 0 && start == done(m)
    ensures |w.r| == n && w == done(m + n)
  {
    w := start;
    for i := 0 to n
      invariant |w.r| == n && w == done(m + i)
    {
      StepIndex(n, m, i);
      assert WrapsAt(f, done, n, m + i);
      w := WrapStep(f, m + i + 1, i, w);
    }
  }

  method UnwrapPass(f: Block -> Block, n: nat, m: nat, start: Wrapping, ghost undone: (Wrapping, nat) -> Wrapping)
    returns (w: Wrapping)
    requires Unwraps(f, undone, n) && |start.r| == n && m % n == 0
    ensures |w.r| == n && undone(w, m) == undone(start, m + n)
  {
    w := start;
    for i := n downto 0
      invariant |w.r| == n && undone(w, m + i) == undone(start, m + n)
    {
      StepIndex(n, m, i);
      assert UnwrapsAt(f, undone, n, w, m + i);
      w := UnwrapStep(f, m + i + 1, i, w);
    }
  }

  method WrapAll(f: Block -> Block, n: nat, from: Wrapping, ghost done: nat -> Wrapping) returns (w: Wrapping)
    requires Wraps(f, done, n) && |from.r| == n && from == done(0)
    ensures w == done(6 * n)
  {
    w := from;
    for j := 0 to 6
      invariant |w.r| == n && w == done(n * j)
    {
      PassStarts(n, j);
      w := WrapPass(f, n, n * j, w, done);
    }
  }

  method UnwrapAll(f: Block -> Block, n: nat, from: Wrapping, ghost undone: (Wrapping, nat) -> Wrapping) returns (w: Wrapping)
    requires Unwraps(f, undone, n) && |from.r| == n
    ensures |w.r| == n && undone(w, 0) == undone(from, 6 * n)
  {
    w := from;
    for j := 6 downto 0
      invariant |w.r| == n && undone(w, n * j) == undone(from, 6 * n)
    {
      PassStarts(n, j);
      w := UnwrapPass(f, n, n * j, w, undone);
    }
  }

  method KeyWrap(f: Block -> Block, key: seq<u8>) returns (r: Option<seq<u8>>)
    ensures r == KeyWrapped(f, key)
  {
    if |key| < 16 || |key| % 8 != 0 {
      return None;
    }
    var from := Wrapping(CHECK, Halves(key));
    WrappingsWrap(f, from);
    var w := WrapAll(f, |key| / 8, from, Wrappings(f, from));
    r := Some(Flat([w.a] + w.r));
  }

  method KeyUnwrap(f: Block -> Block, wrapped: seq<u8>) returns (r: Option<seq<u8>>)
    ensures r == KeyUnwrapped(f, wrapped)
  {
    if |wrapped| < 24 || |wrapped| % 8 != 0 {
      return None;
    }
    var n := |wrapped| / 8 - 1;
    UnwrappingsUnwrap(f, n);
    var w := UnwrapAll(f, n, Wrapping(wrapped[..8], Halves(wrapped[8..])), Unwrappings(f, n));
    r := if w.a == CHECK then Some(Flat(w.r)) else None;
  }
}
