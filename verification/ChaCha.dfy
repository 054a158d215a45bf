/** The ChaCha20-Poly1305 AEAD (chacha.rs).  The ChaCha20 block function is a
    parameter: what is proved holds of every block function. */
module ChaCha {
  import opened Words
  import opened Bytes
  import Poly1305

  /** Key, block counter and nonce to 64 keystream bytes. */
  type BlockFunction = (seq<u8>, u32, seq<u8>) -> seq<u8>

  ghost predicate Blocks(f: BlockFunction)
  {
    forall key, counter, nonce :: |f(key, counter, nonce)| == 64
  }

  /** The counter of block i, wrapping at 2^32. */
  function Counter(counter: u32, i: nat): u32
  {
    ((counter as int + i) % 0x1_0000_0000) as u32
  }

  /** Byte i of the keystream from block `counter` on. */
  function KeyByte(f: BlockFunction, key: seq<u8>, counter: u32, nonce: seq<u8>, i: nat): u8
    requires Blocks(f)
  {
    f(key, Counter(counter, i / 64), nonce)[i % 64]
  }

  function XorStream(f: BlockFunction, key: seq<u8>, counter: u32, nonce: seq<u8>, data: seq<u8>): (r: seq<u8>)
    requires Blocks(f)
    ensures |r| == |data|
  {
    seq(|data|, i requires 0 <= i < |data| => XorByte(data[i], KeyByte(f, key, counter, nonce, i)))
  }

  lemma XorStreamCancels(f: BlockFunction, key: seq<u8>, counter: u32, nonce: seq<u8>, data: seq<u8>)
    requires Blocks(f)
    ensures XorStream(f, key, counter, nonce, XorStream(f, key, counter, nonce, data)) == data
  {
    var once := XorStream(f, key, counter, nonce, data);
    forall i | 0 <= i < |data| ensures XorStream(f, key, counter, nonce, once)[i] == data[i] {
      XorByteCancels(data[i], KeyByte(f, key, counter, nonce, i));
    }
  }

  /** Encrypts in place, 64-byte chunk by chunk. */
  method XorInPlace(f: BlockFunction, key: seq<u8>, counter: u32, nonce: seq<u8>, data: array<u8>)
    requires Blocks(f)
    modifies data
    ensures data[..] == XorStream(f, key, counter, nonce, old(data[..]))
  {
    var at, i := 0, 0;
    while at < data.Length
      invariant at == 64 * i <= data.Length || at == data.Length
      invariant forall j :: 0 <= j < at ==> data[j] == XorByte(old(data[j]), KeyByte(f, key, counter, nonce, j))
      invariant forall j :: at <= j < data.Length ==> data[j] == old(data[j])
    {
      var block := f(key, Counter(counter, i), nonce);
      var end := if data.Length - at < 64 then data.Length else at + 64;
      for j := at to end
        invariant forall k :: 0 <= k < j ==> data[k] == XorByte(old(data[k]), KeyByte(f, key, counter, nonce, k))
        invariant forall k :: j <= k < data.Length ==> data[k] == old(data[k])
      {
        assert j / 64 == i && j % 64 == j - at;
        data[j] := XorByte(data[j], block[j - at]);
      }
      at, i := end, i + 1;
    }
  }

  // ---- what the tag covers ----------------------------------------------------------

  function Zeros(n: nat): (r: seq<u8>)
    ensures |r| == n
  {
    seq(n, i => 0)
  }

  function PadTo16(n: nat): nat
  {
    (16 - n % 16) % 16
  }

  /** A length as eight bytes: `(length as u64).to_le_bytes()`. */
  function LengthField(n: nat): (r: seq<u8>)
    ensures |r| == 8
  {
    LittleBytes(n % TWO64, 8)
  }

  function MacData(associated: seq<u8>, ciphertext: seq<u8>): seq<u8>
  {
    associated + Zeros(PadTo16(|associated|)) + ciphertext + Zeros(PadTo16(|ciphertext|))
    + LengthField(|associated|) + LengthField(|ciphertext|)
  }

  /** The authenticated bytes determine the associated data and the ciphertext. */
  lemma MacDataInjective(a: seq<u8>, c: seq<u8>, a': seq<u8>, c': seq<u8>)
    requires |a| < TWO64 && |c| < TWO64 && |a'| < TWO64 && |c'| < TWO64
    requires MacData(a, c) == MacData(a', c')
    ensures a == a' && c == c'
  {
    var z, y, z', y' := Zeros(PadTo16(|a|)), Zeros(PadTo16(|c|)), Zeros(PadTo16(|a'|)), Zeros(PadTo16(|c'|));
    LengthTold(|a|, |a'|);
    LengthTold(|c|, |c'|);
    SameParts(a, z, c, y, LengthField(|a|), LengthField(|c|), a', z', c', y', LengthField(|a'|), LengthField(|c'|));
  }

  /** A string that ends with two lengths is cut one way only. */
  lemma SameParts(a: seq<u8>, z: seq<u8>, c: seq<u8>, y: seq<u8>, la: seq<u8>, lc: seq<u8>,
                  a': seq<u8>, z': seq<u8>, c': seq<u8>, y': seq<u8>, la': seq<u8>, lc': seq<u8>)
    requires |la| == |lc| == |la'| == |lc'| == 8
    requires a + z + c + y + la + lc == a' + z' + c' + y' + la' + lc'
    requires la == la' ==> |a| == |a'| && |z| == |z'|
    requires lc == lc' ==> |c| == |c'|
    ensures a == a' && c == c'
  {
    var d := a + z + c + y + la + lc;
    assert lc == d[|d| - 8..] == lc';
    assert la == d[|d| - 16..|d| - 8] == la';
    var at := |a| + |z|;
    assert a == d[..|a|] == a';
    assert c == d[at..at + |c|] == c';
  }

  lemma LengthTold(m: nat, n: nat)
    requires m < TWO64 && n < TWO64
    ensures LengthField(m) == LengthField(n) ==> m == n
  {
    FieldValue(m);
    FieldValue(n);
  }

  lemma FieldValue(m: nat)
    requires m < TWO64
    ensures Little(LengthField(m)) == m
  {
    var w := m as u64;
    WordRoundTrip(w);
    assert m % TWO64 == w as nat;
  }

  // ---- sealing and opening ------------------------------------------------------------

  datatype OpenResult = Opened(plaintext: seq<u8>) | TooShort | Forged

  function OneTimeKey(f: BlockFunction, key: seq<u8>, nonce: seq<u8>): (r: seq<u8>)
    requires Blocks(f)
    ensures |r| == 32
  {
    f(key, 0, nonce)[..32]
  }

  function TagOf(f: BlockFunction, key: seq<u8>, nonce: seq<u8>, associated: seq<u8>, ciphertext: seq<u8>): (r: seq<u8>)
    requires Blocks(f)
    ensures |r| == 16
  {
    Poly1305.Tag(OneTimeKey(f, key, nonce), MacData(associated, ciphertext))
  }

  function Sealed(f: BlockFunction, key: seq<u8>, nonce: seq<u8>, associated: seq<u8>, plaintext: seq<u8>): seq<u8>
    requires Blocks(f)
  {
    var ciphertext := XorStream(f, key, 1, nonce, plaintext);
    ciphertext + TagOf(f, key, nonce, associated, ciphertext)
  }

  method Seal(f: BlockFunction, key: seq<u8>, nonce: seq<u8>, associated: seq<u8>, plaintext: seq<u8>)
    returns (out: seq<u8>)
    requires Blocks(f)
    ensures out == Sealed(f, key, nonce, associated, plaintext)
  {
    var buffer := new u8[|plaintext|](i requires 0 <= i < |plaintext| => plaintext[i]);
    assert buffer[..] == plaintext;
    XorInPlace(f, key, 1, nonce, buffer);
    var ciphertext := buffer[..];
    var tag := Poly1305.Compute(OneTimeKey(f, key, nonce), MacData(associated, ciphertext));
    out := ciphertext + tag;
  }

  /** Opens exactly what Seal makes: the plaintext comes back if and only if the
      sealed bytes are its sealing, and any other input is refused. */
  method Open(f: BlockFunction, key: seq<u8>, nonce: seq<u8>, associated: seq<u8>, input: seq<u8>)
    returns (r: OpenResult)
    requires Blocks(f)
    ensures r.TooShort? <==> |input| < 16
    ensures forall p :: r == Opened(p) <==> input == Sealed(f, key, nonce, associated, p)
  {
    if |input| < 16 {
      return TooShort;
    }
    var n := |input| - 16;
    var ciphertext, tag := input[..n], input[n..];
    var expected := Poly1305.Compute(OneTimeKey(f, key, nonce), MacData(associated, ciphertext));
    if expected != tag {
      r := Forged;
    } else {
      var buffer := new u8[n](i requires 0 <= i < n => ciphertext[i]);
      assert buffer[..] == ciphertext;
      XorInPlace(f, key, 1, nonce, buffer);
      r := Opened(buffer[..]);
    }
    OpensExactly(f, key, nonce, associated, input);
  }

  lemma OpensExactly(f: BlockFunction, key: seq<u8>, nonce: seq<u8>, associated: seq<u8>, input: seq<u8>)
    requires Blocks(f) && |input| >= 16
    ensures var n := |input| - 16;
            forall p :: input == Sealed(f, key, nonce, associated, p) <==>
              TagOf(f, key, nonce, associated, input[..n]) == input[n..] && p == XorStream(f, key, 1, nonce, input[..n])
  {
    var n := |input| - 16;
    forall p
      ensures input == Sealed(f, key, nonce, associated, p) <==>
              TagOf(f, key, nonce, associated, input[..n]) == input[n..] && p == XorStream(f, key, 1, nonce, input[..n])
    {
      var c := XorStream(f, key, 1, nonce, p);
      XorStreamCancels(f, key, 1, nonce, p);
      XorStreamCancels(f, key, 1, nonce, input[..n]);
      if input == Sealed(f, key, nonce, associated, p) {
        assert input[..n] == c;
      }
      assert input == input[..n] + input[n..];
    }
  }
}
