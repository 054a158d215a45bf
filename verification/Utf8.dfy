/** Text as bytes: UTF-8 (section 4 of RFC 3629), and where text may be cut. */
module Utf8 {
  import opened Words

  predicate Continuation(b: u8)
  {
    0x80 <= b < 0xC0
  }

  /** How many bytes a character takes that begins with this one; 0 when none does. */
  function Width(lead: u8): (n: nat)
    ensures n <= 4
    ensures n == 1 <==> lead < 0x80
    ensures n > 0 ==> !Continuation(lead)
  {
    if lead < 0x80 then 1
    else if 0xC2 <= lead < 0xE0 then 2
    else if 0xE0 <= lead < 0xF0 then 3
    else if 0xF0 <= lead < 0xF5 then 4
    else 0
  }

  /** No character is spelled longer than it needs to be, is half a surrogate pair or is
      past the last code point. */
  predicate SecondOk(lead: u8, b: u8)
  {
    && (lead == 0xE0 ==> b >= 0xA0) && (lead == 0xED ==> b < 0xA0)
    && (lead == 0xF0 ==> b >= 0x90) && (lead == 0xF4 ==> b < 0x90)
  }

  /** The first n bytes are one character. */
  predicate Spells(s: seq<u8>, n: nat)
  {
    && 0 < n <= |s| && n == Width(s[0])
    && (forall i :: 1 <= i < n ==> Continuation(s[i]))
    && (n > 1 ==> SecondOk(s[0], s[1]))
  }

  /** A string of whole characters. */
  predicate Text(s: seq<u8>)
    decreases |s|
  {
    s == [] || (Spells(s, Width(s[0])) && Text(s[Width(s[0])..]))
  }

  /** Place k of a text begins a character, or is its end. */
  predicate AtChar(s: seq<u8>, k: nat)
    requires k <= |s|
  {
    k == |s| || !Continuation(s[k])
  }

  predicate Ascii(s: seq<u8>)
  {
    forall i :: 0 <= i < |s| ==> s[i] < 0x80
  }

  lemma {:induction false} TextAppend(a: seq<u8>, b: seq<u8>)
    requires Text(a)
    ensures Text(a + b) <==> Text(b)
    decreases |a|
  {
    if a == [] {
      assert a + b == b;
    } else {
      var n := Width(a[0]);
      assert (a + b)[n..] == a[n..] + b;
      TextAppend(a[n..], b);
    }
  }

  /** What is left of a text that is cut is a text if and only if the cut is not inside a
      character. */
  lemma {:induction false} CutText(s: seq<u8>, k: nat)
    requires Text(s) && k <= |s|
    ensures Text(s[..k]) <==> AtChar(s, k)
    decreases |s|
  {
    if k == |s| {
      assert s[..k] == s;
    } else if k > 0 {
      var n := Width(s[0]);
      if k >= n {
        CutText(s[n..], k - n);
        assert s[..k][n..] == s[n..][..k - n];
      } else {
        assert s[..k][0] == s[0] && !Spells(s[..k], n);
      }
    }
  }

  lemma {:induction false} AsciiText(s: seq<u8>)
    requires Ascii(s)
    ensures Text(s)
  {
    if s != [] {
      AsciiText(s[1..]);
    }
  }

  /** A character outside ASCII has a byte it can be cut before. */
  lemma InsideChar(s: seq<u8>) returns (k: nat)
    requires Text(s) && !Ascii(s)
    ensures 0 < k < |s| && !AtChar(s, k)
    decreases |s|
  {
    var n := Width(s[0]);
    if n > 1 {
      k := 1;
    } else {
      assert s == s[..1] + s[1..];
      k := InsideChar(s[1..]);
      k := k + 1;
    }
  }

  /** A text can be cut anywhere if and only if it is ASCII. */
  lemma AnyCutIsText(s: seq<u8>)
    requires Text(s)
    ensures (forall k :: 0 <= k <= |s| ==> Text(s[..k])) <==> Ascii(s)
  {
    if Ascii(s) {
      forall k | 0 <= k <= |s| ensures Text(s[..k]) { AsciiText(s[..k]); }
    } else {
      var k := InsideChar(s);
      CutText(s, k);
    }
  }
}
