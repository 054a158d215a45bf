/** The rounds of the AES block cipher over any S-box and column map that have inverses
    (aes.rs; section 5 of FIPS 197). */
module Rijndael {
  import opened Words
  import opened Bytes

  type Block = s: seq<u8> | |s| == 16 witness seq(16, i => 0)

  /** The S-box, the map of a column, and their inverses. */
  datatype Layers = Layers(sub: u8 -> u8, unsub: u8 -> u8, mix: Four -> Four, unmix: Four -> Four)

  ghost predicate SubAt(l: Layers, x: u8)
  {
    l.unsub(l.sub(x)) == x && l.sub(l.unsub(x)) == x
  }

  ghost predicate MixAt(l: Layers, v: Four)
  {
    l.unmix(l.mix(v)) == v && l.mix(l.unmix(v)) == v
  }

  ghost predicate LayerLaws(l: Layers)
  {
    (forall x :: SubAt(l, x)) && (forall v :: MixAt(l, v))
  }

  // ---- the layers -----------------------------------------------------------------------

  function XorBlocks(s: Block, key: Block): Block
  {
    seq(16, i requires 0 <= i < 16 => XorByte(s[i], key[i]))
  }

  function MapBytes(f: u8 -> u8, s: Block): Block
  {
    seq(16, i requires 0 <= i < 16 => f(s[i]))
  }

  /** The byte of column c and row r is byte 4 c + r; row r turns left by r. */
  function ShiftRows(s: Block): Block
  {
    [s[0], s[5], s[10], s[15], s[4], s[9], s[14], s[3], s[8], s[13], s[2], s[7], s[12], s[1], s[6], s[11]]
  }

  function InvShiftRows(s: Block): Block
  {
    [s[0], s[13], s[10], s[7], s[4], s[1], s[14], s[11], s[8], s[5], s[2], s[15], s[12], s[9], s[6], s[3]]
  }

  function MapColumns(f: Four -> Four, s: Block): Block
  {
    f(s[0..4]) + f(s[4..8]) + f(s[8..12]) + f(s[12..16])
  }

  lemma XorBlocksCancel(s: Block, key: Block)
    ensures XorBlocks(XorBlocks(s, key), key) == s
  {
    forall i | 0 <= i < 16 ensures XorBlocks(XorBlocks(s, key), key)[i] == s[i] { XorByteCancels(s[i], key[i]); }
  }

  lemma SubsCancel(l: Layers, s: Block)
    requires LayerLaws(l)
    ensures MapBytes(l.unsub, MapBytes(l.sub, s)) == s && MapBytes(l.sub, MapBytes(l.unsub, s)) == s
  {
    forall i | 0 <= i < 16
      ensures MapBytes(l.unsub, MapBytes(l.sub, s))[i] == s[i] && MapBytes(l.sub, MapBytes(l.unsub, s))[i] == s[i]
    {
      assert SubAt(l, s[i]);
    }
  }

  lemma MixesCancel(l: Layers, s: Block)
    requires LayerLaws(l)
    ensures MapColumns(l.unmix, MapColumns(l.mix, s)) == s && MapColumns(l.mix, MapColumns(l.unmix, s)) == s
  {
    assert MixAt(l, s[0..4]) && MixAt(l, s[4..8]) && MixAt(l, s[8..12]) && MixAt(l, s[12..16]);
    MapsCancel(l.unmix, l.mix, s);
    MapsCancel(l.mix, l.unmix, s);
  }

  lemma MapsCancel(f: Four -> Four, h: Four -> Four, s: Block)
    requires f(h(s[0..4])) == s[0..4] && f(h(s[4..8])) == s[4..8]
    requires f(h(s[8..12])) == s[8..12] && f(h(s[12..16])) == s[12..16]
    ensures MapColumns(f, MapColumns(h, s)) == s
  {
    Joined(h(s[0..4]), h(s[4..8]), h(s[8..12]), h(s[12..16]));
    assert s == s[0..4] + s[4..8] + s[8..12] + s[12..16];
  }

  lemma Joined(a: Four, b: Four, c: Four, d: Four)
    ensures var s := a + b + c + d; s[0..4] == a && s[4..8] == b && s[8..12] == c && s[12..16] == d
  {
  }

  // ---- the cipher ----------------------------------------------------------------------------

  function Sub(l: Layers, s: Block): Block
  {
    ShiftRows(MapBytes(l.sub, s))
  }

  function InvSub(l: Layers, s: Block): Block
  {
    MapBytes(l.unsub, InvShiftRows(s))
  }

  lemma ShiftsCancel(s: Block)
    ensures InvShiftRows(ShiftRows(s)) == s && ShiftRows(InvShiftRows(s)) == s
  {
  }

  lemma SubLayersCancel(l: Layers, s: Block)
    requires LayerLaws(l)
    ensures InvSub(l, Sub(l, s)) == s && Sub(l, InvSub(l, s)) == s
  {
    ShiftsCancel(MapBytes(l.sub, s));
    SubsCancel(l, s);
    SubsCancel(l, InvShiftRows(s));
    ShiftsCancel(s);
  }

  /** The state after rounds 1 to r; the last round does not mix columns. */
  function Rounds(l: Layers, keys: seq<Block>, s: Block, r: nat): Block
    requires r < |keys|
  {
    if r == 0 then XorBlocks(s, keys[0])
    else
      var t := Sub(l, Rounds(l, keys, s, r - 1));
      XorBlocks(if r == |keys| - 1 then t else MapColumns(l.mix, t), keys[r])
  }

  /** The state after decrypting from the last round down to round r. */
  function InvRounds(l: Layers, keys: seq<Block>, s: Block, r: nat): Block
    requires r < |keys|
    decreases |keys| - r
  {
    if r == |keys| - 1 then XorBlocks(s, keys[r])
    else
      var t := XorBlocks(InvSub(l, InvRounds(l, keys, s, r + 1)), keys[r]);
      if r == 0 then t else MapColumns(l.unmix, t)
  }

  function Encrypt(l: Layers, keys: seq<Block>, s: Block): Block
    requires |keys| > 1
  {
    Rounds(l, keys, s, |keys| - 1)
  }

  function Decrypt(l: Layers, keys: seq<Block>, s: Block): Block
    requires |keys| > 1
  {
    InvRounds(l, keys, s, 0)
  }

  /** Decryption from the last round down finds each round's state before its key. */
  lemma {:induction false} DecryptsRound(l: Layers, keys: seq<Block>, s: Block, r: nat)
    requires LayerLaws(l) && 0 < r < |keys|
    ensures InvRounds(l, keys, Encrypt(l, keys, s), r) == Sub(l, Rounds(l, keys, s, r - 1))
    decreases |keys| - r
  {
    var t := Sub(l, Rounds(l, keys, s, r - 1));
    if r == |keys| - 1 {
      XorBlocksCancel(t, keys[r]);
    } else {
      DecryptsRound(l, keys, s, r + 1);
      SubLayersCancel(l, Rounds(l, keys, s, r));
      XorBlocksCancel(MapColumns(l.mix, t), keys[r]);
      MixesCancel(l, t);
    }
  }

  lemma {:induction false} EncryptsRound(l: Layers, keys: seq<Block>, s: Block, r: nat)
    requires LayerLaws(l) && r < |keys| - 1
    ensures Rounds(l, keys, Decrypt(l, keys, s), r) == InvSub(l, InvRounds(l, keys, s, r + 1))
  {
    var t := InvSub(l, InvRounds(l, keys, s, r + 1));
    if r == 0 {
      XorBlocksCancel(t, keys[0]);
    } else {
      EncryptsRound(l, keys, s, r - 1);
      SubLayersCancel(l, InvRounds(l, keys, s, r));
      MixesCancel(l, XorBlocks(t, keys[r]));
      XorBlocksCancel(t, keys[r]);
    }
  }

  /** Encryption and decryption undo each other under any round keys. */
  lemma CipherInverse(l: Layers, keys: seq<Block>, s: Block)
    requires LayerLaws(l) && |keys| > 1
    ensures Decrypt(l, keys, Encrypt(l, keys, s)) == s && Encrypt(l, keys, Decrypt(l, keys, s)) == s
  {
    var last := |keys| - 1;
    DecryptsRound(l, keys, s, 1);
    SubLayersCancel(l, Rounds(l, keys, s, 0));
    XorBlocksCancel(s, keys[0]);
    EncryptsRound(l, keys, s, last - 1);
    SubLayersCancel(l, InvRounds(l, keys, s, last));
    XorBlocksCancel(s, keys[last]);
  }

  // ---- in place --------------------------------------------------------------------------------

  method Add(block: array<u8>, key: Block)
    requires block.Length == 16
    modifies block
    ensures block[..] == XorBlocks(old(block[..]), key)
  {
    for i := 0 to 16
      invariant forall j :: 0 <= j < i ==> block[j] == XorByte(old(block[j]), key[j])
      invariant forall j :: i <= j < 16 ==> block[j] == old(block[j])
    {
      block[i] := XorByte(block[i], key[i]);
    }
  }

  method Substitute(block: array<u8>, f: u8 -> u8)
    requires block.Length == 16
    modifies block
    ensures block[..] == MapBytes(f, old(block[..]))
  {
    for i := 0 to 16
      invariant forall j :: 0 <= j < i ==> block[j] == f(old(block[j]))
      invariant forall j :: i <= j < 16 ==> block[j] == old(block[j])
    {
      block[i] := f(block[i]);
    }
  }

  /** The places of rows before `row`, and of this row's columns before `column`, come from
      `to`; all others from `from`. */
  function Moved(from: Block, to: Block, row: nat, column: nat): Block
  {
    seq(16, i requires 0 <= i < 16 => if i % 4 < row || (i % 4 == row && i / 4 < column) then to[i] else from[i])
  }

  lemma MovedStep(from: Block, to: Block, row: nat, column: nat)
    requires row < 4 && column < 4
    ensures Moved(from, to, row, column + 1) == Moved(from, to, row, column)[4 * column + row := to[4 * column + row]]
  {
  }

  lemma MovedEnds(from: Block, to: Block, row: nat)
    requires forall i :: 0 <= i < 16 && i % 4 == 0 ==> from[i] == to[i]
    ensures Moved(from, to, 1, 0) == from && Moved(from, to, 4, 0) == to
    ensures Moved(from, to, row, 4) == Moved(from, to, row + 1, 0)
  {
  }

  lemma ShiftedAt(s: Block, row: nat, column: nat)
    requires 1 <= row < 4 && column < 4
    ensures ShiftRows(s)[4 * column + row] == s[4 * ((column + row) % 4) + row]
    ensures InvShiftRows(s)[4 * ((column + row) % 4) + row] == s[4 * column + row]
  {
  }

  method Shift(block: array<u8>)
    requires block.Length == 16
    modifies block
    ensures block[..] == ShiftRows(old(block[..]))
  {
    var s := block[..];
    ghost var t := ShiftRows(s);
    MovedEnds(s, t, 0);
    for row := 1 to 4
      invariant block[..] == Moved(s, t, row, 0)
    {
      for column := 0 to 4
        invariant block[..] == Moved(s, t, row, column)
      {
        ShiftedAt(s, row, column);
        MovedStep(s, t, row, column);
        block[4 * column + row] := s[4 * ((column + row) % 4) + row];
      }
      MovedEnds(s, t, row);
    }
  }

  /** As Moved, by the columns the bytes came from. */
  function MovedBack(from: Block, to: Block, row: nat, column: nat): Block
  {
    seq(16, i requires 0 <= i < 16 =>
      if i % 4 < row || (i % 4 == row && (i / 4 + 4 - i % 4) % 4 < column) then to[i] else from[i])
  }

  lemma MovedBackStep(from: Block, to: Block, row: nat, column: nat)
    requires row < 4 && column < 4
    ensures var i := 4 * ((column + row) % 4) + row;
      MovedBack(from, to, row, column + 1) == MovedBack(from, to, row, column)[i := to[i]]
  {
  }

  lemma MovedBackEnds(from: Block, to: Block, row: nat)
    requires forall i :: 0 <= i < 16 && i % 4 == 0 ==> from[i] == to[i]
    ensures MovedBack(from, to, 1, 0) == from && MovedBack(from, to, 4, 0) == to
    ensures MovedBack(from, to, row, 4) == MovedBack(from, to, row + 1, 0)
  {
  }

  method InvShift(block: array<u8>)
    requires block.Length == 16
    modifies block
    ensures block[..] == InvShiftRows(old(block[..]))
  {
    var s := block[..];
    ghost var t := InvShiftRows(s);
    MovedBackEnds(s, t, 0);
    for row := 1 to 4
      invariant block[..] == MovedBack(s, t, row, 0)
    {
      for column := 0 to 4
        invariant block[..] == MovedBack(s, t, row, column)
      {
        ShiftedAt(s, row, column);
        MovedBackStep(s, t, row, column);
        block[4 * ((column + row) % 4) + row] := s[4 * column + row];
      }
      MovedBackEnds(s, t, row);
    }
  }

  /** The first n columns mapped. */
  function MappedUpTo(f: Four -> Four, s: Block, n: nat): Block
    requires n <= 4
  {
    MapColumns(f, s)[..4 * n] + s[4 * n..]
  }

  lemma MappedStep(f: Four -> Four, s: Block, n: nat)
    requires n < 4
    ensures MappedUpTo(f, s, n)[4 * n..4 * n + 4] == s[4 * n..4 * n + 4]
    ensures var v := f(s[4 * n..4 * n + 4]);
      MappedUpTo(f, s, n + 1) == MappedUpTo(f, s, n)[4 * n := v[0]][4 * n + 1 := v[1]][4 * n + 2 := v[2]][4 * n + 3 := v[3]]
  {
    var t, v := MapColumns(f, s), f(s[4 * n..4 * n + 4]);
    Joined(f(s[0..4]), f(s[4..8]), f(s[8..12]), f(s[12..16]));
    assert t[4 * n..4 * n + 4] == v;
    assert t[4 * n] == v[0] && t[4 * n + 1] == v[1] && t[4 * n + 2] == v[2] && t[4 * n + 3] == v[3];
    Spliced(s, t, 4 * n);
  }

  lemma Spliced(s: Block, t: Block, a: nat)
    requires a + 4 <= 16
    ensures (t[..a] + s[a..])[a..a + 4] == s[a..a + 4]
    ensures t[..a + 4] + s[a + 4..] == (t[..a] + s[a..])[a := t[a]][a + 1 := t[a + 1]][a + 2 := t[a + 2]][a + 3 := t[a + 3]]
  {
  }

  method Mix(block: array<u8>, f: Four -> Four)
    requires block.Length == 16
    modifies block
    ensures block[..] == MapColumns(f, old(block[..]))
  {
    ghost var s := block[..];
    for column := 0 to 4
      invariant block[..] == MappedUpTo(f, s, column)
    {
      MappedStep(f, s, column);
      var at := 4 * column;
      var v := f(block[at..at + 4]);
      block[at] := v[0];
      block[at + 1] := v[1];
      block[at + 2] := v[2];
      block[at + 3] := v[3];
    }
  }

  method EncryptBlock(l: Layers, keys: seq<Block>, block: array<u8>)
    requires block.Length == 16 && |keys| > 1
    modifies block
    ensures block[..] == Encrypt(l, keys, old(block[..]))
  {
    ghost var s := block[..];
    var rounds := |keys| - 1;
    Add(block, keys[0]);
    for round := 1 to rounds + 1
      invariant block[..] == Rounds(l, keys, s, round - 1)
    {
      Substitute(block, l.sub);
      Shift(block);
      if round != rounds {
        Mix(block, l.mix);
      }
      Add(block, keys[round]);
    }
  }

  method DecryptBlock(l: Layers, keys: seq<Block>, block: array<u8>)
    requires block.Length == 16 && |keys| > 1
    modifies block
    ensures block[..] == Decrypt(l, keys, old(block[..]))
  {
    ghost var s := block[..];
    var rounds := |keys| - 1;
    Add(block, keys[rounds]);
    for round := rounds downto 0
      invariant block[..] == InvRounds(l, keys, s, round)
    {
      InvShift(block);
      Substitute(block, l.unsub);
      Add(block, keys[round]);
      if round != 0 {
        Mix(block, l.unmix);
      }
    }
  }

  // ---- the key expansion -----------------------------------------------------------------

  function XorWords(a: Four, b: Four): Four
  {
    [XorByte(a[0], b[0]), XorByte(a[1], b[1]), XorByte(a[2], b[2]), XorByte(a[3], b[3])]
  }

  /** What the key expansion does to bytes: the S-box, and the product by x. */
  datatype KeyMaps = KeyMaps(sub: u8 -> u8, twice: u8 -> u8)

  /** x^(j - 1) in the field. */
  function RoundConstant(m: KeyMaps, j: nat): u8
  {
    if j <= 1 then 1 else m.twice(RoundConstant(m, j - 1))
  }

  /** What word i makes of the word before it, t. */
  function Stirred(m: KeyMaps, nk: nat, i: nat, t: Four, constant: u8): Four
    requires nk > 0
  {
    if i % nk == 0 then [XorByte(m.sub(t[1]), constant), m.sub(t[2]), m.sub(t[3]), m.sub(t[0])]
    else if nk > 6 && i % nk == 4 then [m.sub(t[0]), m.sub(t[1]), m.sub(t[2]), m.sub(t[3])]
    else t
  }

  /** Word i of the expanded key (section 5.2 of FIPS 197). */
  function WordAt(m: KeyMaps, key: seq<u8>, i: nat): Four
    requires |key| in {16, 24, 32}
  {
    var nk := |key| / 4;
    if i < nk then key[4 * i..4 * i + 4]
    else
      XorWords(WordAt(m, key, i - nk),
               Stirred(m, nk, i, WordAt(m, key, i - 1), RoundConstant(m, i / nk)))
  }

  function RoundKey(m: KeyMaps, key: seq<u8>, r: nat): Block
    requires |key| in {16, 24, 32}
  {
    FourWords(WordAt(m, key, 4 * r), WordAt(m, key, 4 * r + 1), WordAt(m, key, 4 * r + 2), WordAt(m, key, 4 * r + 3))
  }

  function RoundKeys(m: KeyMaps, key: seq<u8>): (r: seq<Block>)
    requires |key| in {16, 24, 32}
    ensures |r| == |key| / 4 + 7
  {
    seq(|key| / 4 + 7, r requires 0 <= r < |key| / 4 + 7 => RoundKey(m, key, r))
  }

  lemma NextConstant(i: nat, nk: nat)
    requires nk in {4, 6, 8} && i >= nk
    ensures i / nk == if i % nk == 0 then (i - 1) / nk + 1 else (i - 1) / nk
  {
  }

  /** The first n words. */
  function FirstWords(m: KeyMaps, key: seq<u8>, n: nat): (r: seq<Four>)
    requires |key| in {16, 24, 32}
    ensures |r| == n
  {
    if n == 0 then [] else FirstWords(m, key, n - 1) + [WordAt(m, key, n - 1)]
  }

  lemma {:induction false} FirstWordsAt(m: KeyMaps, key: seq<u8>, n: nat, i: nat)
    requires |key| in {16, 24, 32} && i < n
    ensures FirstWords(m, key, n)[i] == WordAt(m, key, i)
  {
    if i < n - 1 { FirstWordsAt(m, key, n - 1, i); }
  }

  /** The first words are the key's own. */
  method KeyWords(m: KeyMaps, key: seq<u8>) returns (words: seq<Four>)
    requires |key| in {16, 24, 32}
    ensures words == FirstWords(m, key, |key| / 4)
  {
    words := [];
    for i := 0 to |key| / 4
      invariant words == FirstWords(m, key, i)
    {
      words := words + [key[4 * i..4 * i + 4]];
    }
  }

  /** Word i from the words before it, and the round constant for the word after it. */
  method NextWord(m: KeyMaps, nk: nat, i: nat, before: Four, last: Four, rcon: u8, ghost key: seq<u8>)
    returns (word: Four, next: u8)
    requires |key| in {16, 24, 32} && nk == |key| / 4 && i >= nk
    requires before == WordAt(m, key, i - nk) && last == WordAt(m, key, i - 1)
    requires rcon == RoundConstant(m, (i - 1) / nk + 1)
    ensures word == WordAt(m, key, i) && next == RoundConstant(m, i / nk + 1)
  {
    NextConstant(i, nk);
    var temp := last;
    next := rcon;
    if i % nk == 0 {
      temp := [XorByte(m.sub(temp[1]), rcon), m.sub(temp[2]), m.sub(temp[3]), m.sub(temp[0])];
      next := m.twice(rcon);
    } else if nk > 6 && i % nk == 4 {
      temp := [m.sub(temp[0]), m.sub(temp[1]), m.sub(temp[2]), m.sub(temp[3])];
    }
    StirredIs(m, nk, i, last, temp);
    WordIs(m, key, i, before, last, temp);
    word := XorWords(before, temp);
  }

  /** All words of the expanded key. */
  method ExpandedKey(m: KeyMaps, key: seq<u8>) returns (words: seq<Four>)
    requires |key| in {16, 24, 32}
    ensures words == FirstWords(m, key, |key| + 28)
  {
    var nk := |key| / 4;
    words := KeyWords(m, key);
    var rcon: u8 := 1;
    NextConstant(nk, nk);
    for i := nk to 4 * (nk + 7)
      invariant words == FirstWords(m, key, i)
      invariant rcon == RoundConstant(m, (i - 1) / nk + 1)
    {
      FirstWordsAt(m, key, i, i - nk);
      FirstWordsAt(m, key, i, i - 1);
      var word;
      word, rcon := NextWord(m, nk, i, words[i - nk], words[i - 1], rcon, key);
      words := words + [word];
    }
  }

  lemma StirredIs(m: KeyMaps, nk: nat, i: nat, t: Four, temp: Four)
    requires nk in {4, 6, 8} && i >= nk
    requires temp ==
      if i % nk == 0 then [XorByte(m.sub(t[1]), RoundConstant(m, (i - 1) / nk + 1)), m.sub(t[2]), m.sub(t[3]), m.sub(t[0])]
      else if nk > 6 && i % nk == 4 then [m.sub(t[0]), m.sub(t[1]), m.sub(t[2]), m.sub(t[3])] else t
    ensures temp == Stirred(m, nk, i, t, RoundConstant(m, i / nk))
  {
    NextConstant(i, nk);
  }

  lemma WordIs(m: KeyMaps, key: seq<u8>, i: nat, before: Four, t: Four, temp: Four)
    requires |key| in {16, 24, 32} && i >= |key| / 4
    requires before == WordAt(m, key, i - |key| / 4) && t == WordAt(m, key, i - 1)
    requires temp == Stirred(m, |key| / 4, i, t, RoundConstant(m, i / (|key| / 4)))
    ensures WordAt(m, key, i) == XorWords(before, temp)
  {
  }

  function FourWords(a: Four, b: Four, c: Four, d: Four): Block
  {
    var (x: seq<u8>, y: seq<u8>) := (a, b);
    var (z: seq<u8>, w: seq<u8>) := (c, d);
    x + y + z + w
  }

  lemma RoundKeyIs(m: KeyMaps, key: seq<u8>, words: seq<Four>, i: nat)
    requires |key| in {16, 24, 32} && i < |key| / 4 + 7 && words == FirstWords(m, key, |key| + 28)
    ensures 4 * i + 3 < |words|
    ensures FourWords(words[4 * i], words[4 * i + 1], words[4 * i + 2], words[4 * i + 3]) == RoundKey(m, key, i)
  {
    FirstWordsAt(m, key, |words|, 4 * i);
    FirstWordsAt(m, key, |words|, 4 * i + 1);
    FirstWordsAt(m, key, |words|, 4 * i + 2);
    FirstWordsAt(m, key, |words|, 4 * i + 3);
  }

  /** The round keys, four words each. */
  lemma NextKey(all: seq<Block>, k: Block, i: nat)
    requires i < |all| && k == all[i]
    ensures all[..i] + [k] == all[..i + 1]
  {
  }

  method Gathered(m: KeyMaps, key: seq<u8>) returns (keys: seq<Block>)
    requires |key| in {16, 24, 32}
    ensures keys == RoundKeys(m, key)
  {
    var words := ExpandedKey(m, key);
    ghost var all := RoundKeys(m, key);
    keys := [];
    for i := 0 to |key| / 4 + 7
      invariant keys == all[..i]
    {
      RoundKeyIs(m, key, words, i);
      var k := FourWords(words[4 * i], words[4 * i + 1], words[4 * i + 2], words[4 * i + 3]);
      NextKey(all, k, i);
      keys := keys + [k];
    }
  }

  // ---- as a cipher ---------------------------------------------------------------------------

  /** A permutation of blocks and its inverse. */
  datatype Cipher = Cipher(encrypt: Block -> Block, decrypt: Block -> Block)

  ghost predicate InverseAt(c: Cipher, s: Block)
  {
    c.decrypt(c.encrypt(s)) == s && c.encrypt(c.decrypt(s)) == s
  }

  ghost predicate Inverse(c: Cipher)
  {
    forall s :: InverseAt(c, s)
  }

  function KeyedCipher(l: Layers, keys: seq<Block>): Cipher
    requires |keys| > 1
  {
    Cipher((s: Block) => Encrypt(l, keys, s), (s: Block) => Decrypt(l, keys, s))
  }

  lemma KeyedInverse(l: Layers, keys: seq<Block>)
    requires LayerLaws(l) && |keys| > 1
    ensures Inverse(KeyedCipher(l, keys))
  {
    forall s: Block ensures InverseAt(KeyedCipher(l, keys), s) { CipherInverse(l, keys, s); }
  }
}
