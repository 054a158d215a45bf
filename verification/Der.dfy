/** DER elements and unsigned integers (x509.rs; sections 8.1 and 10.1 of X.690). */
module Der {
  import opened Options
  import opened Words
  import opened Bytes

  /** A tag, the contents, the whole element, and what follows it. */
  datatype Element = Element(tag: u8, contents: seq<u8>, whole: seq<u8>, rest: seq<u8>)

  predicate LowTag(tag: u8)
  {
    tag % 32 != 31
  }

  /** The element at the start of the data; None unless it has a low tag, a definite
      length in its shortest form, and all its contents. */
  function ReadElement(data: seq<u8>): Option<Element>
  {
    if data == [] || !LowTag(data[0]) || |data| < 2 then None
    else if data[1] < 0x80 then Contents(data, 2, data[1] as nat)
    else
      var count := data[1] as nat - 0x80;
      if count == 0 || count > 8 || |data| - 2 < count || data[2] == 0 then None
      else
        var length := BigEndian(data[2..2 + count]);
        if length < 0x80 then None else Contents(data, 2 + count, length)
  }

  /** The element whose header ends at `at`. */
  function Contents(data: seq<u8>, at: nat, length: nat): Option<Element>
    requires 1 <= at <= |data|
  {
    if |data| - at < length then None
    else Some(Element(data[0], data[at..at + length], data[..at + length], data[at + length..]))
  }

  /** The element when it has the tag: its contents and what follows. */
  function Expect(data: seq<u8>, tag: u8): Option<(seq<u8>, seq<u8>)>
  {
    match ReadElement(data)
    case None => None
    case Some(e) => if e.tag == tag then Some((e.contents, e.rest)) else None
  }

  // ---- the encoding ------------------------------------------------------------------------

  /** The bytes of n, high first, no leading zero. */
  function Shortest(n: nat): seq<u8>
  {
    if n == 0 then [] else Shortest(n / 256) + [(n % 256) as u8]
  }

  /** A length in its shortest form (section 10.1 of X.690). */
  function LengthOctets(n: nat): seq<u8>
    requires |Shortest(n)| <= 126
  {
    if n < 0x80 then [n as u8] else [(0x80 + |Shortest(n)|) as u8] + Shortest(n)
  }

  lemma {:induction false} ShortestIs(n: nat)
    ensures BigEndian(Shortest(n)) == n && (n > 0 ==> Shortest(n) != [] && Shortest(n)[0] != 0)
  {
    if n == 0 {
      assert Reverse([]) == [];
    } else {
      ShortestIs(n / 256);
      var s := Shortest(n);
      BigEndianLast(s);
      assert s[..|s| - 1] == Shortest(n / 256);
    }
  }

  /** Bytes without a leading zero are the shortest of their number. */
  lemma {:induction false} ShortestUnique(s: seq<u8>)
    requires s == [] || s[0] != 0
    ensures s == Shortest(BigEndian(s))
    decreases |s|
  {
    if s == [] {
      assert Reverse(s) == [];
    } else {
      var p := s[..|s| - 1];
      BigEndianLast(s);
      if p == [] { assert Reverse(p) == []; }
      ShortestUnique(p);
      assert s == p + [s[|s| - 1]];
      if BigEndian(s) == 0 { ShortestPositive(p); }
    }
  }

  lemma ShortestPositive(p: seq<u8>)
    requires p == [] || p[0] != 0
    ensures p != [] ==> BigEndian(p) > 0
  {
    if p != [] {
      BigEndianHead(p);
      assert Pow2(8 * (|p| - 1)) * p[0] as nat > 0;
    }
  }

  lemma LongIsLarge(s: seq<u8>)
    requires |s| > 8 && s[0] != 0
    ensures BigEndian(s) >= TWO64
  {
    BigEndianHead(s);
    assert Pow2(64) == TWO64 by { Pow2Of64(); }
    Pow2Monotone(64, 8 * (|s| - 1));
    ProductBound(1, Pow2(8 * (|s| - 1)), s[0] as nat, Pow2(8 * (|s| - 1)));
  }

  lemma ShortestLength(n: nat)
    requires n < TWO64
    ensures |Shortest(n)| <= 8
  {
    ShortestIs(n);
    if |Shortest(n)| > 8 { LongIsLarge(Shortest(n)); }
  }

  /** The encoding of an element. */
  function Encode(tag: u8, contents: seq<u8>): seq<u8>
    requires |contents| < TWO64
  {
    ShortestLength(|contents|);
    [tag] + LengthOctets(|contents|) + contents
  }

  lemma EncodedIsRead(tag: u8, contents: seq<u8>, rest: seq<u8>)
    requires LowTag(tag) && |contents| < TWO64
    ensures ReadElement(Encode(tag, contents) + rest) == Some(Element(tag, contents, Encode(tag, contents), rest))
  {
    var n := |contents|;
    var data, s := Encode(tag, contents) + rest, Shortest(n);
    ShortestLength(n);
    ShortestIs(n);
    if n < 0x80 {
      assert data == [tag, n as u8] + contents + rest;
      HeaderCut(data, [tag, n as u8], contents, rest);
    } else {
      assert data == ([tag, (0x80 + |s|) as u8] + s) + contents + rest;
      HeaderCut(data, [tag, (0x80 + |s|) as u8] + s, contents, rest);
      assert data[2..2 + |s|] == s;
    }
  }

  lemma HeaderCut(data: seq<u8>, header: seq<u8>, contents: seq<u8>, rest: seq<u8>)
    requires data == header + contents + rest && header != []
    ensures Contents(data, |header|, |contents|) == Some(Element(header[0], contents, header + contents, rest))
  {
  }

  lemma ReadIsEncoded(data: seq<u8>)
    requires ReadElement(data).Some?
    ensures var e := ReadElement(data).value;
      LowTag(e.tag) && |e.contents| < TWO64 && e.whole == Encode(e.tag, e.contents) && data == e.whole + e.rest
  {
    var e := ReadElement(data).value;
    if data[1] < 0x80 {
      assert e.whole == [data[0]] + [data[1]] + e.contents;
    } else {
      var count := data[1] as nat - 0x80;
      var s := data[2..2 + count];
      ShortestUnique(s);
      LengthBound(s);
      assert e.whole == [data[0]] + ([data[1]] + s) + e.contents;
    }
  }

  lemma LengthBound(s: seq<u8>)
    requires |s| <= 8
    ensures BigEndian(s) < TWO64
  {
    BigEndianBound(s);
    assert Pow2(64) == TWO64 by { Pow2Of64(); }
    Pow2Monotone(8 * |s|, 64);
  }

  /** What is read is exactly what a shortest-form encoder writes: reading succeeds with
      these parts if and only if the data is that encoding followed by the rest. */
  lemma ReadsExactly(data: seq<u8>, e: Element)
    ensures ReadElement(data) == Some(e) <==>
      LowTag(e.tag) && |e.contents| < TWO64 && e.whole == Encode(e.tag, e.contents) && data == e.whole + e.rest
  {
    if ReadElement(data) == Some(e) { ReadIsEncoded(data); }
    if LowTag(e.tag) && |e.contents| < TWO64 && e.whole == Encode(e.tag, e.contents) && data == e.whole + e.rest {
      EncodedIsRead(e.tag, e.contents, e.rest);
    }
  }

  /** An element of the expected tag is read exactly from its shortest-form encoding. */
  lemma ExpectsExactly(data: seq<u8>, tag: u8, contents: seq<u8>, rest: seq<u8>)
    ensures Expect(data, tag) == Some((contents, rest)) <==>
      LowTag(tag) && |contents| < TWO64 && data == Encode(tag, contents) + rest
  {
    if LowTag(tag) && |contents| < TWO64 && data == Encode(tag, contents) + rest {
      EncodedIsRead(tag, contents, rest);
    }
    if Expect(data, tag) == Some((contents, rest)) {
      ReadIsEncoded(data);
    }
  }

  // ---- integers ------------------------------------------------------------------------------

  /** The two's complement number the contents of an INTEGER state. */
  function Signed(contents: seq<u8>): int
  {
    if contents != [] && contents[0] >= 0x80 then BigEndian(contents) - Pow2(8 * |contents|) else BigEndian(contents)
  }

  /** A DER INTEGER without its sign byte; None for an empty or a negative one. */
  function Unsigned(contents: seq<u8>): Option<seq<u8>>
  {
    if contents == [] || contents[0] >= 0x80 then None
    else if contents[0] == 0 then Some(contents[1..])
    else Some(contents)
  }

  /** Refused exactly when empty or negative, and otherwise the same number. */
  lemma UnsignedIs(contents: seq<u8>)
    ensures Unsigned(contents).None? <==> contents == [] || Signed(contents) < 0
    ensures Unsigned(contents).Some? ==> BigEndian(Unsigned(contents).value) == Signed(contents)
  {
    if contents != [] {
      BigEndianHead(contents);
      BigEndianBound(contents);
    }
  }
}
