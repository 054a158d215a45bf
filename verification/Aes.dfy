/** AES itself: the S-box and column mix in the rounds, and the key expansion (aes.rs;
    section 5 of FIPS 197). */
module Aes {
  import opened Options
  import opened Words
  import opened Bytes
  import opened Linear
  import Galois
  import C = Circulant
  import opened Rijndael

  function Multiply(a: u8, b: u8): u8
  {
    Galois.Times(a, b)
  }

  function MixColumn(v: Four): Four
  {
    var (a, b, c, d) := (v[0], v[1], v[2], v[3]);
    [XorByte(XorByte(XorByte(Multiply(a, 2), Multiply(b, 3)), c), d),
     XorByte(XorByte(XorByte(a, Multiply(b, 2)), Multiply(c, 3)), d),
     XorByte(XorByte(XorByte(a, b), Multiply(c, 2)), Multiply(d, 3)),
     XorByte(XorByte(XorByte(Multiply(a, 3), b), c), Multiply(d, 2))]
  }

  /** One byte of a mixed column: each byte times its factor. */
  function MixedByte(v: Four, k: Four): u8
  {
    XorByte(XorByte(XorByte(Multiply(v[0], k[0]), Multiply(v[1], k[1])), Multiply(v[2], k[2])), Multiply(v[3], k[3]))
  }

  function InvMixColumn(v: Four): Four
  {
    [MixedByte(v, [14, 11, 13, 9]), MixedByte(v, [9, 14, 11, 13]),
     MixedByte(v, [13, 9, 14, 11]), MixedByte(v, [11, 13, 9, 14])]
  }

  /** Four terms in a row are a sum of two pairs, wherever the first of them stands. */
  lemma InARow(a: u8, b: u8, c: u8, d: u8)
    ensures XorByte(XorByte(XorByte(a, b), c), d) == Sum4(Galois.Sums(), a, b, c, d)
    ensures Sum4(Galois.Sums(), a, b, c, d) == Sum4(Galois.Sums(), b, c, d, a)
    ensures Sum4(Galois.Sums(), a, b, c, d) == Sum4(Galois.Sums(), c, d, a, b)
    ensures Sum4(Galois.Sums(), a, b, c, d) == Sum4(Galois.Sums(), d, a, b, c)
  {
    var g := Galois.Sums();
    Galois.SumsLaws();
    assert LawAt(g, g.add(a, b), c, d);
    Sum4Turn(g, a, b, c, d);
    Sum4Turn(g, b, c, d, a);
    Sum4Turn(g, d, a, b, c);
  }

  lemma MixIs(v: Four)
    ensures MixColumn(v) == C.Column(C.MIX, v)
  {
    C.Ones();
    var (a, b, c, d) := (v[0], v[1], v[2], v[3]);
    InARow(Multiply(a, 2), Multiply(b, 3), c, d);
    InARow(a, Multiply(b, 2), Multiply(c, 3), d);
    InARow(a, b, Multiply(c, 2), Multiply(d, 3));
    InARow(Multiply(a, 3), b, c, Multiply(d, 2));
  }

  lemma UnmixIs(v: Four)
    ensures InvMixColumn(v) == C.Column(C.UNMIX, v)
  {
    var (a, b, c, d) := (v[0], v[1], v[2], v[3]);
    InARow(Multiply(a, 14), Multiply(b, 11), Multiply(c, 13), Multiply(d, 9));
    InARow(Multiply(a, 9), Multiply(b, 14), Multiply(c, 11), Multiply(d, 13));
    InARow(Multiply(a, 13), Multiply(b, 9), Multiply(c, 14), Multiply(d, 11));
    InARow(Multiply(a, 11), Multiply(b, 13), Multiply(c, 9), Multiply(d, 14));
  }

  function AesLayers(): Layers
  {
    Layers(Galois.SubByte, Galois.InvSubByte, MixColumn, InvMixColumn)
  }

  lemma AesLayersLaws()
    ensures LayerLaws(AesLayers())
  {
    forall x: u8 ensures SubAt(AesLayers(), x) { SubsBack(x); }
    forall v: Four ensures MixAt(AesLayers(), v) { MixesBack(v); }
  }

  lemma SubsBack(x: u8)
    ensures SubAt(AesLayers(), x)
  {
    Galois.BoxesInverse(x);
  }

  lemma MixesBack(v: Four)
    ensures MixAt(AesLayers(), v)
  {
    MixIs(v);
    UnmixIs(v);
    MixIs(InvMixColumn(v));
    UnmixIs(MixColumn(v));
    C.ColumnsInverse(v);
  }

  // ---- the cipher of a key -----------------------------------------------------------------

  function AesKeyMaps(): KeyMaps
  {
    KeyMaps(Galois.SubByte, (x: u8) => Multiply(x, 2))
  }

  datatype Aes = Aes(keys: seq<Block>)

  /** The round keys of a key of 16, 24 or 32 bytes; None for any other length. */
  method New(key: seq<u8>) returns (r: Option<Aes>)
    ensures r.Some? <==> |key| in {16, 24, 32}
    ensures r.Some? ==> r.value.keys == RoundKeys(AesKeyMaps(), key)
  {
    if |key| != 16 && |key| != 24 && |key| != 32 {
      return None;
    }
    var keys := Gathered(AesKeyMaps(), key);
    r := Some(Aes(keys));
  }

  function AesCipher(a: Aes): Cipher
    requires |a.keys| > 1
  {
    KeyedCipher(AesLayers(), a.keys)
  }

  /** For keys of every size, decrypting a block undoes encrypting it, and the other way
      round. */
  lemma AesInverse(a: Aes)
    requires |a.keys| > 1
    ensures Inverse(AesCipher(a))
  {
    AesLayersLaws();
    KeyedInverse(AesLayers(), a.keys);
  }
}
