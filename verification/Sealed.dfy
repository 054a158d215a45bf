/** The sealed item format over any key agreement and AEAD (sealed.rs). */
module Sealed {
  import opened Options
  import opened Words
  import opened Bytes

  datatype Error = NotSealed | Malformed | NoKey(ids: seq<seq<u8>>) | Forged | Recipients(n: nat) | SmallOrder

  datatype Result<+T> = Ok(value: T) | Err(error: Error)

  /** What the format is built of: the public key of a secret, the agreement of a secret
      with a public key (none with one of small order), the digest a key id is cut
      from, the key a salt and a shared secret derive, and the AEAD. */
  datatype Suite = Suite(
    publicKey: seq<u8> -> seq<u8>,
    shared: (seq<u8>, seq<u8>) -> Option<seq<u8>>,
    digest: seq<u8> -> seq<u8>,
    derive: (seq<u8>, seq<u8>) -> seq<u8>,
    seal: (seq<u8>, seq<u8>, seq<u8>, seq<u8>) -> seq<u8>,
    open: (seq<u8>, seq<u8>, seq<u8>, seq<u8>) -> Option<seq<u8>>)

  ghost predicate Sizes(s: Suite)
  {
    && (forall x {:trigger s.publicKey(x)} :: |s.publicKey(x)| == 32)
    && (forall x {:trigger s.digest(x)} :: |s.digest(x)| == 32)
    && (forall x, y {:trigger s.derive(x, y)} :: |s.derive(x, y)| == 32)
    && (forall k, n, a, p {:trigger s.seal(k, n, a, p)} :: |s.seal(k, n, a, p)| == |p| + 16)
  }

  /** Both sides agree. */
  ghost predicate AgreesAt(s: Suite, x: seq<u8>, y: seq<u8>)
  {
    s.shared(x, s.publicKey(y)) == s.shared(y, s.publicKey(x))
  }

  /** What is sealed opens under its own key. */
  ghost predicate OpensAt(s: Suite, k: seq<u8>, n: seq<u8>, a: seq<u8>, p: seq<u8>)
  {
    s.open(k, n, a, s.seal(k, n, a, p)) == Some(p)
  }

  ghost predicate Lawful(s: Suite)
  {
    && Sizes(s) && (forall x, y :: AgreesAt(s, x, y))
    && (forall k, n, a, p :: OpensAt(s, k, n, a, p))
  }

  const MAGIC: seq<u8> := [0x73, 0x6b, 0x61, 0x72, 0x62, 0x69, 0x65, 0x63, 0x2d, 0x73, 0x65, 0x61, 0x6c, 0x65, 0x64, 0x2d, 0x31, 0]
  const RECIPIENT_LEN: nat := 8 + 32 + 32 + 16

  function Zeros12(): seq<u8>
  {
    seq(12, i => 0)
  }

  function KeyId(s: Suite, public: seq<u8>): seq<u8>
    requires Sizes(s)
  {
    s.digest(public)[..8]
  }

  // ---- the layout ----------------------------------------------------------------------------

  /** A recipient: its key id, the ephemeral public key, the wrapped content key. */
  datatype Entry = Entry(id: seq<u8>, ephemeral: seq<u8>, wrapped: seq<u8>)

  predicate EntryOk(e: Entry)
  {
    |e.id| == 8 && |e.ephemeral| == 32 && |e.wrapped| == 48
  }

  function EntryBytes(e: Entry): seq<u8>
  {
    e.id + e.ephemeral + e.wrapped
  }

  function Layout(entries: seq<Entry>): seq<u8>
  {
    if entries == [] then [] else Layout(entries[..|entries| - 1]) + EntryBytes(entries[|entries| - 1])
  }

  predicate EntriesOk(entries: seq<Entry>)
  {
    forall e :: e in entries ==> EntryOk(e)
  }

  lemma {:induction false} LayoutLength(entries: seq<Entry>)
    requires EntriesOk(entries)
    ensures |Layout(entries)| == RECIPIENT_LEN * |entries|
  {
    if entries != [] {
      var n := |entries| - 1;
      LayoutLength(entries[..n]);
      assert entries[n] in entries && |EntryBytes(entries[n])| == RECIPIENT_LEN;
    }
  }

  function Header(entries: seq<Entry>): seq<u8>
    requires |entries| <= 255
  {
    MAGIC + [|entries| as u8] + Layout(entries)
  }

  datatype Parsed = Parsed(header: seq<u8>, recipients: seq<Entry>, nonce: seq<u8>, body: seq<u8>)

  /** The entry at byte `at`. */
  function EntryAt(data: seq<u8>, at: nat): (e: Entry)
    requires at + RECIPIENT_LEN <= |data|
    ensures EntryOk(e)
  {
    Entry(data[at..at + 8], data[at + 8..at + 40], data[at + 40..at + RECIPIENT_LEN])
  }

  lemma EntryBytesAt(data: seq<u8>, at: nat)
    requires at + RECIPIENT_LEN <= |data|
    ensures EntryBytes(EntryAt(data, at)) == data[at..at + RECIPIENT_LEN]
  {
    assert data[at..at + RECIPIENT_LEN] == data[at..at + 8] + data[at + 8..at + 40] + data[at + 40..at + RECIPIENT_LEN];
  }

  function EntriesAt(data: seq<u8>, at: nat, n: nat): (r: seq<Entry>)
    requires at + n * RECIPIENT_LEN <= |data|
    ensures |r| == n && EntriesOk(r)
    decreases n
  {
    if n == 0 then [] else EntriesAt(data, at, n - 1) + [EntryAt(data, at + (n - 1) * RECIPIENT_LEN)]
  }

  predicate IsSealed(data: seq<u8>)
  {
    MAGIC <= data
  }

  function Parse(data: seq<u8>): Result<Parsed>
  {
    if !IsSealed(data) then Err(NotSealed)
    else if |data| <= |MAGIC| then Err(Malformed)
    else
      var count := data[|MAGIC|] as nat;
      var end := |MAGIC| + 1 + count * RECIPIENT_LEN;
      if count == 0 || |data| < end + 12 + 16 then Err(Malformed)
      else Ok(Parsed(data[..end], EntriesAt(data, |MAGIC| + 1, count), data[end..end + 12], data[end + 12..]))
  }

  /** A parsed item is well formed. */
  predicate ParsedOk(p: Parsed)
  {
    && 1 <= |p.recipients| <= 255 && EntriesOk(p.recipients) && p.header == Header(p.recipients)
    && |p.nonce| == 12 && |p.body| >= 16
  }

  lemma Adjoin(data: seq<u8>, at: nat, m: nat, end: nat)
    requires at <= m <= end <= |data|
    ensures data[at..end] == data[at..m] + data[m..end]
  {
  }

  lemma {:induction false} EntriesLaid(data: seq<u8>, at: nat, n: nat)
    requires at + n * RECIPIENT_LEN <= |data|
    ensures Layout(EntriesAt(data, at, n)) == data[at..at + n * RECIPIENT_LEN]
  {
    if n > 0 {
      EntriesLaid(data, at, n - 1);
      var all := EntriesAt(data, at, n);
      assert all[..n - 1] == EntriesAt(data, at, n - 1);
      var m := at + (n - 1) * RECIPIENT_LEN;
      EntryBytesAt(data, m);
      Adjoin(data, at, m, m + RECIPIENT_LEN);
    }
  }

  lemma CutApart(data: seq<u8>, at: nat, m: nat, end: nat, a: seq<u8>, b: seq<u8>)
    requires at <= m <= end <= |data| && data[at..end] == a + b && |a| == m - at
    ensures data[at..m] == a && data[m..end] == b
  {
    assert data[at..m] == data[at..end][..m - at] && data[m..end] == data[at..end][m - at..];
  }

  lemma {:induction false} LaidIn(entries: seq<Entry>, data: seq<u8>, at: nat)
    requires EntriesOk(entries) && at + |entries| * RECIPIENT_LEN <= |data|
    requires data[at..at + |entries| * RECIPIENT_LEN] == Layout(entries)
    ensures EntriesAt(data, at, |entries|) == entries
    decreases |entries|
  {
    if entries != [] {
      var n := |entries| - 1;
      var e, rest, m := entries[n], entries[..n], at + n * RECIPIENT_LEN;
      LayoutLength(rest);
      CutApart(data, at, m, m + RECIPIENT_LEN, Layout(rest), EntryBytes(e));
      LaidIn(rest, data, at);
      EntryStands(e, data, m);
      assert entries == rest + [e];
    }
  }

  lemma LaidEntries(entries: seq<Entry>, before: seq<u8>, after: seq<u8>)
    requires EntriesOk(entries)
    ensures |Layout(entries)| == RECIPIENT_LEN * |entries|
    ensures EntriesAt(before + Layout(entries) + after, |before|, |entries|) == entries
  {
    LayoutLength(entries);
    LaidIn(entries, before + Layout(entries) + after, |before|);
  }

  lemma EntryStands(e: Entry, data: seq<u8>, at: nat)
    requires EntryOk(e) && at + RECIPIENT_LEN <= |data| && data[at..at + RECIPIENT_LEN] == EntryBytes(e)
    ensures EntryAt(data, at) == e
  {
    CutApart(data, at, at + 40, at + RECIPIENT_LEN, e.id + e.ephemeral, e.wrapped);
    CutApart(data, at, at + 8, at + 40, e.id, e.ephemeral);
  }

  /** Parsing finds exactly the parts that, written one after the other, are the data. */
  lemma ParsesExactly(data: seq<u8>, p: Parsed)
    ensures Parse(data) == Ok(p) <==> ParsedOk(p) && data == p.header + p.nonce + p.body
  {
    if Parse(data) == Ok(p) {
      var count := data[|MAGIC|] as nat;
      EntriesLaid(data, |MAGIC| + 1, count);
      HeaderOf(data, count);
    }
    if ParsedOk(p) && data == p.header + p.nonce + p.body {
      ParsesWritten(data, p);
    }
  }

  lemma HeaderOf(data: seq<u8>, count: nat)
    requires IsSealed(data) && |data| > |MAGIC| && count == data[|MAGIC|] as nat
    requires |MAGIC| + 1 + count * RECIPIENT_LEN + 12 <= |data|
    ensures var end := |MAGIC| + 1 + count * RECIPIENT_LEN;
      && data[..end] == MAGIC + [data[|MAGIC|]] + data[|MAGIC| + 1..end]
      && data == data[..end] + data[end..end + 12] + data[end + 12..]
  {
    var end := |MAGIC| + 1 + count * RECIPIENT_LEN;
    assert data[..|MAGIC|] == MAGIC;
    assert data[..end] == data[..|MAGIC|] + data[|MAGIC|..|MAGIC| + 1] + data[|MAGIC| + 1..end];
  }

  lemma ParsesWritten(data: seq<u8>, p: Parsed)
    requires ParsedOk(p) && data == p.header + p.nonce + p.body
    ensures Parse(data) == Ok(p)
  {
    var n := |p.recipients|;
    var before := MAGIC + [n as u8];
    LaidEntries(p.recipients, before, p.nonce + p.body);
    assert data == before + Layout(p.recipients) + (p.nonce + p.body);
    assert data[..|MAGIC|] == MAGIC && data[|MAGIC|] as nat == n;
    var end := |MAGIC| + 1 + n * RECIPIENT_LEN;
    assert |p.header| == end;
    assert data[..end] == p.header && data[end..end + 12] == p.nonce && data[end + 12..] == p.body;
  }

  // ---- sealing -------------------------------------------------------------------------------

  /** The key that wraps the content key between an ephemeral and a recipient key. */
  function WrapKey(s: Suite, ephemeralPublic: seq<u8>, public: seq<u8>, shared: seq<u8>): seq<u8>
  {
    s.derive(ephemeralPublic + public, shared)
  }

  /** The entry of one recipient; None when its key is of small order. */
  function EntryFor(s: Suite, contentKey: seq<u8>, ephemeral: seq<u8>, public: seq<u8>): Option<Entry>
    requires Sizes(s)
  {
    var ephemeralPublic := s.publicKey(ephemeral);
    match s.shared(ephemeral, public)
    case None => None
    case Some(shared) =>
      Some(Entry(KeyId(s, public), ephemeralPublic,
                 s.seal(WrapKey(s, ephemeralPublic, public, shared), Zeros12(), [], contentKey)))
  }

  /** What sealing laid down: an entry for every recipient in turn, then the body under
      the content key, the header bound in. */
  ghost predicate SealedAs(s: Suite, recipients: seq<seq<u8>>, plaintext: seq<u8>, contentKey: seq<u8>,
        ephemerals: seq<seq<u8>>, nonce: seq<u8>, entries: seq<Entry>, out: seq<u8>)
    requires Sizes(s)
  {
    && |ephemerals| == |recipients| == |entries| && 1 <= |entries| <= 255
    && EntriesFor(s, recipients, contentKey, ephemerals, entries)
    && out == Header(entries) + nonce + s.seal(contentKey, nonce, Header(entries), plaintext)
  }

  ghost predicate EntriesFor(s: Suite, recipients: seq<seq<u8>>, contentKey: seq<u8>, ephemerals: seq<seq<u8>>, entries: seq<Entry>)
    requires Sizes(s) && |ephemerals| == |recipients|
  {
    |entries| <= |recipients| && forall i {:trigger entries[i]} :: 0 <= i < |entries| ==>
      EntryFor(s, contentKey, ephemerals[i], recipients[i]) == Some(entries[i])
  }

  ghost predicate AllAgree(s: Suite, recipients: seq<seq<u8>>, ephemerals: seq<seq<u8>>, n: nat)
    requires n <= |ephemerals| == |recipients|
  {
    forall i :: 0 <= i < n ==> s.shared(ephemerals[i], recipients[i]).Some?
  }

  /** The header with an entry for every recipient; None when a key is of small order. */
  method SealEntries(s: Suite, recipients: seq<seq<u8>>, contentKey: seq<u8>, ephemerals: seq<seq<u8>>)
    returns (r: Option<seq<u8>>, ghost entries: seq<Entry>)
    requires Sizes(s) && |ephemerals| == |recipients| <= 255
    ensures r.None? <==> !AllAgree(s, recipients, ephemerals, |recipients|)
    ensures r.Some? ==> |entries| == |recipients| && EntriesFor(s, recipients, contentKey, ephemerals, entries)
                        && r.value == Header(entries)
  {
    entries := [];
    var out := MAGIC + [|recipients| as u8];
    ghost var head := out;
    for i := 0 to |recipients|
      invariant |entries| == i && out == head + Layout(entries)
      invariant EntriesFor(s, recipients, contentKey, ephemerals, entries) && AllAgree(s, recipients, ephemerals, i)
    {
      var e := EntryFor(s, contentKey, ephemerals[i], recipients[i]);
      if e.None? {
        return None, entries;
      }
      HeaderPush(head, entries, e.value);
      EntriesPush(s, recipients, contentKey, ephemerals, entries, e.value);
      out := out + e.value.id + e.value.ephemeral + e.value.wrapped;
      entries := entries + [e.value];
    }
    r := Some(out);
  }

  lemma HeaderPush(head: seq<u8>, entries: seq<Entry>, e: Entry)
    ensures head + Layout(entries) + e.id + e.ephemeral + e.wrapped == head + Layout(entries + [e])
  {
    assert (entries + [e])[..|entries|] == entries;
    FourApart(head, Layout(entries), e.id, e.ephemeral, e.wrapped);
  }

  lemma FourApart(h: seq<u8>, l: seq<u8>, a: seq<u8>, b: seq<u8>, c: seq<u8>)
    ensures h + l + a + b + c == h + (l + (a + b + c))
  {
  }

  lemma EntriesPush(s: Suite, recipients: seq<seq<u8>>, contentKey: seq<u8>, ephemerals: seq<seq<u8>>, entries: seq<Entry>, e: Entry)
    requires Sizes(s) && |ephemerals| == |recipients| && |entries| < |recipients|
    requires EntriesFor(s, recipients, contentKey, ephemerals, entries)
    requires EntryFor(s, contentKey, ephemerals[|entries|], recipients[|entries|]) == Some(e)
    ensures EntriesFor(s, recipients, contentKey, ephemerals, entries + [e])
    ensures s.shared(ephemerals[|entries|], recipients[|entries|]).Some?
  {
  }

  /** Seals to every recipient; the content key, the ephemeral keys and the nonce are the
      random bytes drawn. */
  method Seal(s: Suite, recipients: seq<seq<u8>>, plaintext: seq<u8>, contentKey: seq<u8>,
        ephemerals: seq<seq<u8>>, nonce: seq<u8>) returns (r: Result<seq<u8>>, ghost entries: seq<Entry>)
    requires Sizes(s) && |ephemerals| == |recipients| && |contentKey| == 32 && |nonce| == 12
    ensures r.Ok? ==> SealedAs(s, recipients, plaintext, contentKey, ephemerals, nonce, entries, r.value)
    ensures r.Err? <==> recipients == [] || |recipients| > 255 || !AllAgree(s, recipients, ephemerals, |recipients|)
  {
    if recipients == [] || |recipients| > 255 {
      return Err(Recipients(|recipients|)), [];
    }
    var head;
    head, entries := SealEntries(s, recipients, contentKey, ephemerals);
    if head.None? {
      return Err(SmallOrder), entries;
    }
    r := Ok(head.value + nonce + s.seal(contentKey, nonce, head.value, plaintext));
  }

  // ---- opening -------------------------------------------------------------------------------

  /** What one entry opens to with one secret. */
  function Attempt(s: Suite, p: Parsed, secret: seq<u8>, e: Entry): Option<seq<u8>>
  {
    match s.shared(secret, e.ephemeral)
    case None => None
    case Some(shared) =>
      match s.open(WrapKey(s, e.ephemeral, s.publicKey(secret), shared), Zeros12(), [], e.wrapped)
      case None => None
      case Some(contentKey) => if |contentKey| != 32 then None else s.open(contentKey, p.nonce, p.header, p.body)
  }

  /** The entry names the secret's key. */
  predicate Names(s: Suite, e: Entry, secret: seq<u8>)
    requires Sizes(s)
  {
    e.id == KeyId(s, s.publicKey(secret))
  }

  /** What the first entries that name the secret open to, the first that does. */
  function FirstOf(s: Suite, p: Parsed, secret: seq<u8>, n: nat): Option<seq<u8>>
    requires Sizes(s) && n <= |p.recipients|
  {
    if n == 0 then None
    else
      match FirstOf(s, p, secret, n - 1)
      case Some(plain) => Some(plain)
      case None =>
        var e := p.recipients[n - 1];
        if Names(s, e, secret) then Attempt(s, p, secret, e) else None
  }

  /** What the first n secrets open to, the first that does. */
  function FirstSecret(s: Suite, p: Parsed, secrets: seq<seq<u8>>, n: nat): Option<seq<u8>>
    requires Sizes(s) && n <= |secrets|
  {
    if n == 0 then None
    else
      match FirstSecret(s, p, secrets, n - 1)
      case Some(plain) => Some(plain)
      case None => FirstOf(s, p, secrets[n - 1], |p.recipients|)
  }

  /** Some entry names a key held. */
  predicate Matched(s: Suite, p: Parsed, secrets: seq<seq<u8>>)
    requires Sizes(s)
  {
    exists secret, e :: secret in secrets && e in p.recipients && Names(s, e, secret)
  }

  function Ids(entries: seq<Entry>): seq<seq<u8>>
  {
    seq(|entries|, i requires 0 <= i < |entries| => entries[i].id)
  }

  function Opened(s: Suite, data: seq<u8>, secrets: seq<seq<u8>>): Result<seq<u8>>
    requires Sizes(s)
  {
    match Parse(data)
    case Err(e) => Err(e)
    case Ok(p) =>
      match FirstSecret(s, p, secrets, |secrets|)
      case Some(plain) => Ok(plain)
      case None => if Matched(s, p, secrets) then Err(Forged) else Err(NoKey(Ids(p.recipients)))
  }

  /** Tries every entry that names a held key, in turn. */
  method Open(s: Suite, data: seq<u8>, secrets: seq<seq<u8>>) returns (r: Result<seq<u8>>)
    requires Sizes(s)
    ensures r == Opened(s, data, secrets)
  {
    var parsed := Parse(data);
    if parsed.Err? {
      return Err(parsed.error);
    }
    var p := parsed.value;
    var matched := false;
    for k := 0 to |secrets|
      invariant matched <==> Matched(s, p, secrets[..k])
      invariant FirstSecret(s, p, secrets, k).None?
    {
      var found, any := OpenWith(s, p, secrets[k]);
      if found.Some? {
        SecretStays(s, p, secrets, k + 1, |secrets|);
        return Ok(found.value);
      }
      MatchedNext(s, p, secrets, k);
      matched := matched || any;
    }
    assert secrets[..|secrets|] == secrets;
    r := if matched then Err(Forged) else Err(NoKey(Ids(p.recipients)));
  }

  lemma MatchedNext(s: Suite, p: Parsed, secrets: seq<seq<u8>>, k: nat)
    requires Sizes(s) && k < |secrets|
    ensures Matched(s, p, secrets[..k + 1]) <==>
      Matched(s, p, secrets[..k]) || exists e :: e in p.recipients && Names(s, e, secrets[k])
  {
    assert secrets[..k + 1] == secrets[..k] + [secrets[k]];
  }

  method OpenWith(s: Suite, p: Parsed, secret: seq<u8>) returns (r: Option<seq<u8>>, any: bool)
    requires Sizes(s)
    ensures r == FirstOf(s, p, secret, |p.recipients|)
    ensures r.None? ==> (any <==> exists e :: e in p.recipients && Names(s, e, secret))
  {
    any := false;
    for i := 0 to |p.recipients|
      invariant FirstOf(s, p, secret, i).None?
      invariant any <==> exists j :: 0 <= j < i && Names(s, p.recipients[j], secret)
    {
      var e := p.recipients[i];
      if Names(s, e, secret) {
        any := true;
        r := Attempt(s, p, secret, e);
        if r.Some? {
          EntryStays(s, p, secret, i + 1, |p.recipients|);
          return;
        }
      }
    }
    r := None;
    forall e | e in p.recipients && Names(s, e, secret) ensures any {
      var j :| 0 <= j < |p.recipients| && p.recipients[j] == e;
    }
  }

  lemma {:induction false} EntryStays(s: Suite, p: Parsed, secret: seq<u8>, m: nat, n: nat)
    requires Sizes(s) && m <= n <= |p.recipients| && FirstOf(s, p, secret, m).Some?
    ensures FirstOf(s, p, secret, n) == FirstOf(s, p, secret, m)
  {
    if m < n { EntryStays(s, p, secret, m, n - 1); }
  }

  lemma {:induction false} SecretStays(s: Suite, p: Parsed, secrets: seq<seq<u8>>, m: nat, n: nat)
    requires Sizes(s) && m <= n <= |secrets| && FirstSecret(s, p, secrets, m).Some?
    ensures FirstSecret(s, p, secrets, n) == FirstSecret(s, p, secrets, m)
  {
    if m < n { SecretStays(s, p, secrets, m, n - 1); }
  }

  // ---- what is sealed opens -------------------------------------------------------------------

  /** What sealing laid down, as it is parsed. */
  function ItemOf(s: Suite, entries: seq<Entry>, plaintext: seq<u8>, contentKey: seq<u8>, nonce: seq<u8>): Parsed
    requires |entries| <= 255
  {
    Parsed(Header(entries), entries, nonce, s.seal(contentKey, nonce, Header(entries), plaintext))
  }

  lemma EntriesWellFormed(s: Suite, recipients: seq<seq<u8>>, contentKey: seq<u8>, ephemerals: seq<seq<u8>>, entries: seq<Entry>)
    requires Sizes(s) && |ephemerals| == |recipients| && |contentKey| == 32
    requires EntriesFor(s, recipients, contentKey, ephemerals, entries)
    ensures EntriesOk(entries)
  {
    forall e | e in entries ensures EntryOk(e) {
      var i :| 0 <= i < |entries| && entries[i] == e;
      assert EntryFor(s, contentKey, ephemerals[i], recipients[i]) == Some(entries[i]);
    }
  }

  /** No key the secret derives opens an entry's wrapped key but the key it was wrapped
      with: what the tag of an AEAD is trusted for. */
  ghost predicate Unconfused(s: Suite, ephemeral: seq<u8>, public: seq<u8>, secret: seq<u8>, e: Entry)
  {
    if s.shared(secret, e.ephemeral).None? || s.shared(ephemeral, public).None? then true
    else
      var own := WrapKey(s, e.ephemeral, s.publicKey(secret), s.shared(secret, e.ephemeral).value);
      s.open(own, Zeros12(), [], e.wrapped).None?
      || own == WrapKey(s, s.publicKey(ephemeral), public, s.shared(ephemeral, public).value)
  }

  ghost predicate AllUnconfused(s: Suite, recipients: seq<seq<u8>>, ephemerals: seq<seq<u8>>, entries: seq<Entry>, secret: seq<u8>)
    requires |entries| <= |ephemerals| == |recipients|
  {
    forall i {:trigger entries[i]} :: 0 <= i < |entries| ==>
      Unconfused(s, ephemerals[i], recipients[i], secret, entries[i])
  }

  /** An entry opens to the plaintext or to nothing, with any secret. */
  lemma NothingElse(s: Suite, recipients: seq<seq<u8>>, plaintext: seq<u8>, contentKey: seq<u8>, ephemerals: seq<seq<u8>>,
        nonce: seq<u8>, entries: seq<Entry>, i: nat, secret: seq<u8>)
    requires Lawful(s) && |ephemerals| == |recipients| && i < |entries| <= 255 && |contentKey| == 32
    requires EntriesFor(s, recipients, contentKey, ephemerals, entries)
    requires AllUnconfused(s, recipients, ephemerals, entries, secret)
    ensures var a := Attempt(s, ItemOf(s, entries, plaintext, contentKey, nonce), secret, entries[i]);
      a == None || a == Some(plaintext)
  {
    var e := entries[i];
    assert EntryFor(s, contentKey, ephemerals[i], recipients[i]) == Some(e);
    assert Unconfused(s, ephemerals[i], recipients[i], secret, e);
    var shared := s.shared(ephemerals[i], recipients[i]).value;
    var wrap := WrapKey(s, s.publicKey(ephemerals[i]), recipients[i], shared);
    assert OpensAt(s, wrap, Zeros12(), [], contentKey);
    assert OpensAt(s, contentKey, nonce, Header(entries), plaintext);
  }

  /** The entry of a recipient opens to the plaintext with the recipient's secret. */
  lemma OwnEntryOpens(s: Suite, recipients: seq<seq<u8>>, plaintext: seq<u8>, contentKey: seq<u8>, ephemerals: seq<seq<u8>>,
        nonce: seq<u8>, entries: seq<Entry>, i: nat, secret: seq<u8>)
    requires Lawful(s) && |ephemerals| == |recipients| && i < |entries| <= 255 && |contentKey| == 32
    requires EntriesFor(s, recipients, contentKey, ephemerals, entries) && s.publicKey(secret) == recipients[i]
    ensures Names(s, entries[i], secret)
    ensures Attempt(s, ItemOf(s, entries, plaintext, contentKey, nonce), secret, entries[i]) == Some(plaintext)
  {
    assert EntryFor(s, contentKey, ephemerals[i], recipients[i]) == Some(entries[i]);
    assert AgreesAt(s, secret, ephemerals[i]);
    var shared := s.shared(ephemerals[i], recipients[i]).value;
    var wrap := WrapKey(s, s.publicKey(ephemerals[i]), recipients[i], shared);
    assert OpensAt(s, wrap, Zeros12(), [], contentKey);
    assert OpensAt(s, contentKey, nonce, Header(entries), plaintext);
  }

  /** An attempt that succeeds makes the whole reading succeed. */
  lemma {:induction false} AttemptCounts(s: Suite, p: Parsed, secret: seq<u8>, n: nat, i: nat)
    requires Sizes(s) && i < n <= |p.recipients|
    requires Names(s, p.recipients[i], secret) && Attempt(s, p, secret, p.recipients[i]).Some?
    ensures FirstOf(s, p, secret, n).Some?
  {
    if i < n - 1 { AttemptCounts(s, p, secret, n - 1, i); }
  }

  lemma {:induction false} SecretCounts(s: Suite, p: Parsed, secrets: seq<seq<u8>>, n: nat, k: nat)
    requires Sizes(s) && k < n <= |secrets| && FirstOf(s, p, secrets[k], |p.recipients|).Some?
    ensures FirstSecret(s, p, secrets, n).Some?
  {
    if k < n - 1 { SecretCounts(s, p, secrets, n - 1, k); }
  }

  /** A recipient's reading never fails: no entry put before the recipient's own, and no
      other secret, hides the one that opens. */
  lemma RecipientIsNeverRefused(s: Suite, recipients: seq<seq<u8>>, plaintext: seq<u8>, contentKey: seq<u8>,
        ephemerals: seq<seq<u8>>, nonce: seq<u8>, entries: seq<Entry>, out: seq<u8>, secrets: seq<seq<u8>>, k: nat, i: nat)
    requires Lawful(s) && |contentKey| == 32 && |nonce| == 12
    requires SealedAs(s, recipients, plaintext, contentKey, ephemerals, nonce, entries, out)
    requires k < |secrets| && i < |recipients| && s.publicKey(secrets[k]) == recipients[i]
    ensures Opened(s, out, secrets).Ok?
  {
    var p := ItemOf(s, entries, plaintext, contentKey, nonce);
    EntriesWellFormed(s, recipients, contentKey, ephemerals, entries);
    ParsesExactly(out, p);
    OwnEntryOpens(s, recipients, plaintext, contentKey, ephemerals, nonce, entries, i, secrets[k]);
    AttemptCounts(s, p, secrets[k], |p.recipients|, i);
    SecretCounts(s, p, secrets, |secrets|, k);
  }

  lemma {:induction false} SecretOpens(s: Suite, p: Parsed, plaintext: seq<u8>, secret: seq<u8>, n: nat, i: nat)
    requires Sizes(s) && n <= |p.recipients|
    requires forall e :: e in p.recipients ==> Attempt(s, p, secret, e) in {None, Some(plaintext)}
    ensures FirstOf(s, p, secret, n) in {None, Some(plaintext)}
    ensures i < n && Names(s, p.recipients[i], secret) && Attempt(s, p, secret, p.recipients[i]).Some?
      ==> FirstOf(s, p, secret, n) == Some(plaintext)
  {
    if n > 0 {
      SecretOpens(s, p, plaintext, secret, n - 1, i);
      assert p.recipients[n - 1] in p.recipients;
    }
  }

  lemma {:induction false} SecretsOpen(s: Suite, p: Parsed, plaintext: seq<u8>, secrets: seq<seq<u8>>, n: nat, k: nat)
    requires Sizes(s) && n <= |secrets|
    requires forall j :: 0 <= j < |secrets| ==> FirstOf(s, p, secrets[j], |p.recipients|) in {None, Some(plaintext)}
    ensures FirstSecret(s, p, secrets, n) in {None, Some(plaintext)}
    ensures k < n && FirstOf(s, p, secrets[k], |p.recipients|).Some? ==> FirstSecret(s, p, secrets, n) == Some(plaintext)
  {
    if n > 0 { SecretsOpen(s, p, plaintext, secrets, n - 1, k); }
  }

  /** A sealed item opens to its plaintext for every recipient, whatever other secrets the
      reader tries first and whatever key ids the entries share. */
  lemma EveryRecipientOpens(s: Suite, recipients: seq<seq<u8>>, plaintext: seq<u8>, contentKey: seq<u8>, ephemerals: seq<seq<u8>>,
        nonce: seq<u8>, entries: seq<Entry>, out: seq<u8>, secrets: seq<seq<u8>>, k: nat, i: nat)
    requires Lawful(s) && |contentKey| == 32 && |nonce| == 12
    requires SealedAs(s, recipients, plaintext, contentKey, ephemerals, nonce, entries, out)
    requires k < |secrets| && i < |recipients| && s.publicKey(secrets[k]) == recipients[i]
    requires forall secret :: secret in secrets ==> AllUnconfused(s, recipients, ephemerals, entries, secret)
    ensures Opened(s, out, secrets) == Ok(plaintext)
  {
    var p := ItemOf(s, entries, plaintext, contentKey, nonce);
    EntriesWellFormed(s, recipients, contentKey, ephemerals, entries);
    ParsesExactly(out, p);
    forall j | 0 <= j < |secrets| ensures FirstOf(s, p, secrets[j], |p.recipients|) in {None, Some(plaintext)} {
      EntriesOpen(s, recipients, plaintext, contentKey, ephemerals, nonce, entries, secrets[j]);
      SecretOpens(s, p, plaintext, secrets[j], |p.recipients|, i);
    }
    EntriesOpen(s, recipients, plaintext, contentKey, ephemerals, nonce, entries, secrets[k]);
    OwnEntryOpens(s, recipients, plaintext, contentKey, ephemerals, nonce, entries, i, secrets[k]);
    SecretOpens(s, p, plaintext, secrets[k], |p.recipients|, i);
    SecretsOpen(s, p, plaintext, secrets, |secrets|, k);
  }

  lemma EntriesOpen(s: Suite, recipients: seq<seq<u8>>, plaintext: seq<u8>, contentKey: seq<u8>, ephemerals: seq<seq<u8>>,
        nonce: seq<u8>, entries: seq<Entry>, secret: seq<u8>)
    requires Lawful(s) && |ephemerals| == |recipients| && |entries| <= 255 && |contentKey| == 32
    requires EntriesFor(s, recipients, contentKey, ephemerals, entries)
    requires AllUnconfused(s, recipients, ephemerals, entries, secret)
    ensures forall e :: e in entries ==>
      Attempt(s, ItemOf(s, entries, plaintext, contentKey, nonce), secret, e) in {None, Some(plaintext)}
  {
    forall e | e in entries
      ensures Attempt(s, ItemOf(s, entries, plaintext, contentKey, nonce), secret, e) in {None, Some(plaintext)}
    {
      var i :| 0 <= i < |entries| && entries[i] == e;
      NothingElse(s, recipients, plaintext, contentKey, ephemerals, nonce, entries, i, secret);
    }
  }
}
