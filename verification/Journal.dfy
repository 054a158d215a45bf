/** The capability state as an append-only journal of values (journal.rs), and
    the documents it replays to (state.rs). */
module Journal {
  import opened Options
  import opened Words
  import opened Utf8

  datatype Result<+T> = Ok(value: T) | Err

  type Id = string
  type NonceKey = string
  type Byte = u8

  /** A capability's record; `rest` stands for the fields nothing here reads. */
  datatype Record = Record(state: string, expiresAt: Option<nat>, remainingUses: Option<nat>, rest: string)

  datatype Doc = Doc(capabilities: map<Id, Record>, nonces: map<NonceKey, nat>)

  const EMPTY := Doc(map[], map[])

  /** One value of the journal.  Unknown is a value that is neither a snapshot nor
      an entry. */
  datatype Value =
    | Snapshot(doc: Doc)
    | CapabilityEntry(id: Id, record: Record)
    | NonceEntry(key: NonceKey, seenAt: nat)
    | Unknown(text: string)

  // ---- replay -------------------------------------------------------------------

  function Apply(doc: Doc, value: Value): Option<Doc>
  {
    match value
    case Snapshot(d) => Some(d)
    case CapabilityEntry(id, record) => Some(doc.(capabilities := doc.capabilities[id := record]))
    case NonceEntry(key, seenAt) => Some(doc.(nonces := doc.nonces[key := seenAt]))
    case Unknown(_) => None
  }

  /** The document the values replay to from `doc`, or None when one of them
      cannot be applied. */
  function ReplayFrom(doc: Doc, values: seq<Value>): Option<Doc>
    decreases |values|
  {
    if values == [] then Some(doc)
    else match Apply(doc, values[0])
      case None => None
      case Some(next) => ReplayFrom(next, values[1..])
  }

  method Replay(values: seq<Value>) returns (r: Option<Doc>)
    ensures r == ReplayFrom(EMPTY, values)
  {
    var state := EMPTY;
    for i := 0 to |values|
      invariant ReplayFrom(state, values[i..]) == ReplayFrom(EMPTY, values)
    {
      var next := Apply(state, values[i]);
      if next.None? {
        return None;
      }
      state := next.value;
    }
    r := Some(state);
  }

  lemma {:induction false} ReplayAppend(doc: Doc, a: seq<Value>, b: seq<Value>)
    ensures ReplayFrom(doc, a + b) ==
            match ReplayFrom(doc, a) { case None => None case Some(d) => ReplayFrom(d, b) }
    decreases |a|
  {
    if a == [] {
      assert a + b == b;
    } else {
      assert (a + b)[1..] == a[1..] + b;
      match Apply(doc, a[0]) {
        case None =>
        case Some(next) => ReplayAppend(next, a[1..], b);
      }
    }
  }

  // ---- bytes ----------------------------------------------------------------------

  const NEWLINE: Byte := 10

  /** JSON text, as far as the journal relies on it: `write` gives a value's bytes,
      `read` the value the bytes start with and how many it takes. */
  datatype Codec = Codec(write: Value -> seq<Byte>, read: seq<Byte> -> Option<(Value, nat)>)

  predicate AsciiString(s: string)
  {
    forall i :: 0 <= i < |s| ==> s[i] < 128 as char
  }

  predicate AsciiRecord(record: Record)
  {
    AsciiString(record.state) && AsciiString(record.rest)
  }

  /** Every text in the value is ASCII. */
  predicate AsciiValue(v: Value)
  {
    match v
    case Snapshot(doc) =>
      && (forall id :: id in doc.capabilities ==> AsciiString(id) && AsciiRecord(doc.capabilities[id]))
      && (forall key :: key in doc.nonces ==> AsciiString(key))
    case CapabilityEntry(id, record) => AsciiString(id) && AsciiRecord(record)
    case NonceEntry(key, seenAt) => AsciiString(key)
    case Unknown(text) => AsciiString(text)
  }

  /** A value is read exactly where its own bytes stand, no value's bytes start
      another's, and none starts with a line break; what is written is text, and is
      ASCII exactly when the value is, since other characters are not escaped. */
  ghost predicate Lawful(codec: Codec)
  {
    && (forall v {:trigger codec.write(v)} :: |codec.write(v)| > 0 && codec.write(v)[0] != NEWLINE)
    && (forall v {:trigger codec.write(v)} :: Text(codec.write(v)) && (Ascii(codec.write(v)) <==> AsciiValue(v)))
    && (forall raw, v, n {:trigger Reads(codec, raw, v, n)} :: Reads(codec, raw, v, n) <==>
          codec.write(v) <= raw && n == |codec.write(v)|)
    && (forall v, w {:trigger codec.write(v), codec.write(w)} :: codec.write(v) <= codec.write(w) ==> v == w)
  }

  ghost predicate Reads(codec: Codec, raw: seq<Byte>, v: Value, n: nat)
  {
    codec.read(raw) == Some((v, n))
  }

  datatype Parsed = Parsed(values: seq<Value>, trailing: bool)

  /** The complete values the bytes hold, in order, and whether bytes that parse
      as no value stand after them. */
  function Parse(codec: Codec, raw: seq<Byte>): Parsed
    requires Lawful(codec)
    decreases |raw|
  {
    if raw == [] then Parsed([], false)
    else if raw[0] == NEWLINE then Parse(codec, raw[1..])
    else match codec.read(raw)
      case None => Parsed([], true)
      case Some((v, n)) =>
        assert Reads(codec, raw, v, n);
        var rest := Parse(codec, raw[n..]);
        Parsed([v] + rest.values, rest.trailing)
  }

  /** A value's bytes in front of anything parse as that value. */
  lemma ParseValue(codec: Codec, v: Value, rest: seq<Byte>)
    requires Lawful(codec)
    ensures Parse(codec, codec.write(v) + rest)
            == Parsed([v] + Parse(codec, rest).values, Parse(codec, rest).trailing)
  {
    var raw := codec.write(v) + rest;
    assert raw[..|codec.write(v)|] == codec.write(v);
    assert Reads(codec, raw, v, |codec.write(v)|);
    assert raw[|codec.write(v)|..] == rest;
  }

  /** Part of a value's bytes parses as nothing, and is trailing unless empty. */
  lemma ParsePartial(codec: Codec, v: Value, k: nat)
    requires Lawful(codec) && k < |codec.write(v)|
    ensures Parse(codec, codec.write(v)[..k]) == Parsed([], k > 0)
  {
    var raw := codec.write(v)[..k];
    if k > 0 && codec.read(raw).Some? {
      var (w, n) := codec.read(raw).value;
      assert Reads(codec, raw, w, n);
      assert false;
    }
  }

  /** What follows complete values is parsed as it would be alone. */
  lemma {:induction false} ParseAppend(codec: Codec, a: seq<Byte>, b: seq<Byte>)
    requires Lawful(codec) && !Parse(codec, a).trailing
    ensures Parse(codec, a + b) == Parsed(Parse(codec, a).values + Parse(codec, b).values, Parse(codec, b).trailing)
    decreases |a|
  {
    if a == [] {
      assert a + b == b;
    } else if a[0] == NEWLINE {
      assert (a + b)[1..] == a[1..] + b;
      ParseAppend(codec, a[1..], b);
    } else {
      var (v, n) := codec.read(a).value;
      assert Reads(codec, a, v, n);
      ParseAppend(codec, a[n..], b);
      assert a + b == codec.write(v) + (a[n..] + b);
      ParseValue(codec, v, a[n..] + b);
    }
  }

  // ---- the lines of one save --------------------------------------------------------

  /** A value on a line of its own. */
  function Line(codec: Codec, v: Value): (r: seq<Byte>)
  {
    codec.write(v) + [NEWLINE]
  }

  /** The entries that record `id` as `doc` holds it, preceded by the nonce; None
      when the document does not hold them. */
  function Entries(doc: Doc, id: Id, nonce: Option<NonceKey>): Option<seq<Value>>
  {
    if nonce.Some? && nonce.value !in doc.nonces then None
    else if id !in doc.capabilities then None
    else
      var record := [CapabilityEntry(id, doc.capabilities[id])];
      Some(if nonce.None? then record else [NonceEntry(nonce.value, doc.nonces[nonce.value])] + record)
  }

  function Lines(codec: Codec, values: seq<Value>): seq<Byte>
  {
    if values == [] then [] else Line(codec, values[0]) + Lines(codec, values[1..])
  }

  lemma {:induction false} ParseLines(codec: Codec, values: seq<Value>)
    requires Lawful(codec)
    ensures Parse(codec, Lines(codec, values)) == Parsed(values, false)
  {
    if values != [] {
      var rest := Lines(codec, values[1..]);
      ParseLines(codec, values[1..]);
      assert Lines(codec, values) == codec.write(values[0]) + ([NEWLINE] + rest);
      ParseValue(codec, values[0], [NEWLINE] + rest);
      assert ([NEWLINE] + rest)[1..] == rest;
    }
  }

  /** How many of the lines are complete when the first k bytes of them were
      written: a value counts once its last byte is there. */
  function Complete(codec: Codec, values: seq<Value>, k: nat): (n: nat)
    ensures n <= |values|
  {
    if values == [] || k < |codec.write(values[0])| then 0
    else 1 + Complete(codec, values[1..], if k == |codec.write(values[0])| then 0 else k - |codec.write(values[0])| - 1)
  }

  /** Byte k of the lines is inside a value: some of it is before, some is not. */
  predicate InsideValue(codec: Codec, values: seq<Value>, k: nat)
  {
    values != [] && 0 < k && k != |codec.write(values[0])|
    && (k < |codec.write(values[0])| || InsideValue(codec, values[1..], k - |codec.write(values[0])| - 1))
  }

  /** Cutting an append at any byte leaves a prefix of its values, and bytes that
      parse as no value exactly when the cut is inside one. */
  lemma {:induction false} CutLines(codec: Codec, values: seq<Value>, k: nat)
    requires Lawful(codec) && k <= |Lines(codec, values)|
    ensures Parse(codec, Lines(codec, values)[..k]) == Parsed(values[..Complete(codec, values, k)], InsideValue(codec, values, k))
  {
    if values != [] {
      var v := values[0];
      var w := codec.write(v);
      var rest := Lines(codec, values[1..]);
      var cut := Lines(codec, values)[..k];
      if k < |w| {
        assert cut == w[..k];
        ParsePartial(codec, v, k);
      } else if k == |w| {
        assert cut == w + [];
        ParseValue(codec, v, []);
        CompleteNone(codec, values[1..]);
      } else {
        var j := k - |w| - 1;
        assert cut == w + ([NEWLINE] + rest[..j]);
        ParseValue(codec, v, [NEWLINE] + rest[..j]);
        assert ([NEWLINE] + rest[..j])[1..] == rest[..j];
        CutLines(codec, values[1..], j);
      }
    }
  }

  lemma CompleteNone(codec: Codec, values: seq<Value>)
    requires Lawful(codec)
    ensures Complete(codec, values, 0) == 0
  {
    if values != [] { assert |codec.write(values[0])| > 0; }
  }

  // ---- text -----------------------------------------------------------------------------

  lemma {:induction false} LinesText(codec: Codec, values: seq<Value>)
    requires Lawful(codec)
    ensures Text(Lines(codec, values))
    ensures Ascii(Lines(codec, values)) <==> forall i :: 0 <= i < |values| ==> AsciiValue(values[i])
  {
    if values != [] {
      var w, rest := codec.write(values[0]), Lines(codec, values[1..]);
      LinesText(codec, values[1..]);
      NewlineText();
      TextAppend(w, [NEWLINE]);
      TextAppend(w + [NEWLINE], rest);
      AsciiParts(w + [NEWLINE], rest);
      AsciiParts(w, [NEWLINE]);
      AllAscii(values);
    }
  }

  lemma NewlineText()
    ensures Text([NEWLINE]) && Ascii([NEWLINE])
  {
    AsciiText([NEWLINE]);
  }

  lemma AsciiParts(a: seq<Byte>, b: seq<Byte>)
    ensures Ascii(a + b) <==> Ascii(a) && Ascii(b)
  {
    if Ascii(a + b) {
      forall i | 0 <= i < |a| ensures a[i] < 0x80 { assert (a + b)[i] == a[i]; }
      forall i | 0 <= i < |b| ensures b[i] < 0x80 { assert (a + b)[|a| + i] == b[i]; }
    }
  }

  lemma AllAscii(values: seq<Value>)
    requires values != []
    ensures (forall i :: 0 <= i < |values| ==> AsciiValue(values[i]))
      <==> AsciiValue(values[0]) && forall i :: 0 <= i < |values[1..]| ==> AsciiValue(values[1..][i])
  {
    if AsciiValue(values[0]) && forall i :: 0 <= i < |values[1..]| ==> AsciiValue(values[1..][i]) {
      forall i | 0 <= i < |values| ensures AsciiValue(values[i]) {
        if i > 0 { assert values[i] == values[1..][i - 1]; }
      }
    }
  }

  /** A journal with an append cut at byte k is text exactly when the cut is not inside a
      character. */
  lemma CutReads(codec: Codec, raw: seq<Byte>, values: seq<Value>, k: nat)
    requires Lawful(codec) && Text(raw) && k <= |Lines(codec, values)|
    ensures Text(raw + Lines(codec, values)[..k]) <==> AtChar(Lines(codec, values), k)
  {
    LinesText(codec, values);
    CutText(Lines(codec, values), k);
    TextAppend(raw, Lines(codec, values)[..k]);
  }

  // ---- purging ------------------------------------------------------------------------

  /** The capability a nonce key names: the text before its first colon. */
  function Owner(key: NonceKey): Option<Id>
  {
    if key == [] then None
    else if key[0] == ':' then Some([])
    else match Owner(key[1..])
      case None => None
      case Some(rest) => Some([key[0]] + rest)
  }

  lemma {:induction false} OwnerOf(id: Id, nonce: string)
    requires ':' !in id
    ensures Owner(id + ":" + nonce) == Some(id)
  {
    var key := id + ":" + nonce;
    if id == [] {
      assert key[0] == ':';
    } else {
      OwnerOf(id[1..], nonce);
      assert key[1..] == id[1..] + ":" + nonce;
      assert id == [id[0]] + id[1..];
    }
  }

  predicate LiveAt(record: Record, now: nat)
  {
    record.expiresAt.Some? && record.expiresAt.value > now && record.state == "issued"
  }

  predicate Holds(doc: Doc, id: Id, now: nat)
  {
    id in doc.capabilities && LiveAt(doc.capabilities[id], now)
  }

  predicate KeepsNonce(doc: Doc, key: NonceKey, now: nat)
  {
    Owner(key).Some? && Holds(doc, Owner(key).value, now)
  }

  /** forget_stale: the live capabilities, and the nonces of those. */
  function Purge(doc: Doc, now: nat): Doc
  {
    Doc(map id | id in doc.capabilities && LiveAt(doc.capabilities[id], now) :: doc.capabilities[id],
        map key | key in doc.nonces && KeepsNonce(doc, key, now) :: doc.nonces[key])
  }

  /** Purging early changes nothing once time has passed: what is stale stays stale. */
  lemma PurgeTwice(doc: Doc, early: nat, late: nat)
    requires early <= late
    ensures Purge(Purge(doc, early), late) == Purge(doc, late)
  {
    var once := Purge(doc, early);
    assert forall id :: Holds(once, id, late) <==> Holds(doc, id, late);
    assert Purge(once, late).capabilities == Purge(doc, late).capabilities;
    assert Purge(once, late).nonces == Purge(doc, late).nonces;
  }

  /** One change: a nonce seen and a capability's record set. */
  function Set(doc: Doc, id: Id, record: Record, nonce: Option<NonceKey>, seenAt: nat): Doc
  {
    Doc(doc.capabilities[id := record],
        if nonce.None? then doc.nonces else doc.nonces[nonce.value := seenAt])
  }

  ghost predicate NoNonceOf(doc: Doc, id: Id)
  {
    forall key :: key in doc.nonces ==> Owner(key) != Some(id)
  }

  /** A change made to the purged document and the same change made to the whole
      one purge to the same, if the capability is live or has no nonce yet. */
  lemma SetPurged(doc: Doc, now: nat, id: Id, record: Record, nonce: Option<NonceKey>, seenAt: nat)
    requires Holds(doc, id, now) || NoNonceOf(doc, id)
    ensures Purge(Set(Purge(doc, now), id, record, nonce, seenAt), now) == Purge(Set(doc, id, record, nonce, seenAt), now)
  {
    SetHolds(doc, now, id, record, nonce, seenAt);
    SetNonces(doc, now, id, record, nonce, seenAt);
  }

  lemma SetNonces(doc: Doc, now: nat, id: Id, record: Record, nonce: Option<NonceKey>, seenAt: nat)
    requires Holds(doc, id, now) || NoNonceOf(doc, id)
    ensures Purge(Set(Purge(doc, now), id, record, nonce, seenAt), now).nonces
         == Purge(Set(doc, id, record, nonce, seenAt), now).nonces
  {
    var a, b := Set(Purge(doc, now), id, record, nonce, seenAt), Set(doc, id, record, nonce, seenAt);
    SetHolds(doc, now, id, record, nonce, seenAt);
    forall key | key in b.nonces && KeepsNonce(b, key, now) ensures key in a.nonces {
      SetNonce(doc, now, id, record, nonce, seenAt, key);
    }
  }

  lemma SetHolds(doc: Doc, now: nat, id: Id, record: Record, nonce: Option<NonceKey>, seenAt: nat)
    ensures var a, b := Set(Purge(doc, now), id, record, nonce, seenAt), Set(doc, id, record, nonce, seenAt);
      && (forall i :: Holds(a, i, now) <==> Holds(b, i, now))
      && Purge(a, now).capabilities == Purge(b, now).capabilities
  {
  }

  /** A nonce that is kept after the change was kept before it, or is the one it marks. */
  lemma SetNonce(doc: Doc, now: nat, id: Id, record: Record, nonce: Option<NonceKey>, seenAt: nat, key: NonceKey)
    requires Holds(doc, id, now) || NoNonceOf(doc, id)
    requires var b := Set(doc, id, record, nonce, seenAt); key in b.nonces && KeepsNonce(b, key, now)
    ensures key in Set(Purge(doc, now), id, record, nonce, seenAt).nonces
  {
    if nonce != Some(key) {
      assert KeepsNonce(doc, key, now);
    }
  }

  /** Replaying the entries of a change makes it. */
  lemma ReplayEntries(doc: Doc, id: Id, record: Record, nonce: Option<NonceKey>, seenAt: nat, held: Doc)
    requires held.capabilities == held.capabilities[id := record] && id in held.capabilities
    requires nonce.Some? ==> nonce.value in held.nonces && held.nonces[nonce.value] == seenAt
    ensures Entries(held, id, nonce).Some?
    ensures ReplayFrom(doc, Entries(held, id, nonce).value) == Some(Set(doc, id, record, nonce, seenAt))
  {
    var values := Entries(held, id, nonce).value;
    assert held.capabilities[id] == record;
    if nonce.Some? {
      assert values[1..] == [CapabilityEntry(id, record)];
      var after := doc.(nonces := doc.nonces[nonce.value := seenAt]);
      assert ReplayFrom(doc, values) == ReplayFrom(after, values[1..]);
      assert ReplayFrom(after, values[1..]) == ReplayFrom(Set(doc, id, record, nonce, seenAt), []);
    } else {
      assert ReplayFrom(doc, values) == ReplayFrom(Set(doc, id, record, nonce, seenAt), []);
    }
  }
}
