/** The stored capability state under its lock (state.rs, issue.rs, status.rs and
    the state change of redeem/request.rs).

    `full` is what the store would hold if nothing were ever purged or compacted;
    Valid ties the journal on disk to it, and every answer is given about it. */
module CapabilityStore {
  import opened Options
  import opened Journal
  import opened Words
  import opened Utf8

  const U64: nat := 0x1_0000_0000_0000_0000

  /** Broken is an error instead of an answer: the state could not be loaded. */
  datatype Answer = Denied | Pending | Cancelled | Redeemed | Broken

  predicate Redeemable(doc: Doc, id: Id, now: nat)
  {
    Holds(doc, id, now) && doc.capabilities[id].remainingUses.Some? && doc.capabilities[id].remainingUses.value > 0
  }

  /** Every capability and nonce belongs to an id that was issued. */
  ghost predicate Known(doc: Doc, issued: set<Id>)
  {
    && doc.capabilities.Keys <= issued
    && (forall key :: key in doc.nonces ==> Owner(key).Some? && Owner(key).value in issued)
  }

  /** Uses granted at issue are either spent or left. */
  ghost predicate UsesAccounted(doc: Doc, granted: map<Id, nat>, spent: map<Id, nat>)
  {
    forall id :: id in doc.capabilities ==>
      && id in granted && id in spent && spent[id] <= granted[id]
      && doc.capabilities[id].remainingUses == Some(granted[id] - spent[id])
  }

  /** What a redemption or cancellation of an admitted capability answers, and the
      record it leaves; None when nothing is recorded. */
  function Decide(record: Record, cancel: bool, challenge: bool, written: bool): (Answer, Option<Record>)
    requires record.remainingUses.Some? && record.remainingUses.value > 0
  {
    if cancel then (Cancelled, Some(record.(state := "cancelled")))
    else if written then
      var left := record.remainingUses.value - 1;
      (Redeemed, Some(record.(remainingUses := Some(left), state := if left < 1 then "spent" else record.state)))
    else if challenge then (Pending, Some(record))
    else (Denied, None)
  }

  /** The same request on a document from which nothing was ever purged. */
  function Outcome(full: Doc, id: Id, key: NonceKey, cancel: bool, authorized: bool, challenge: bool, written: bool,
                   now: nat, t: nat): (Answer, Doc)
  {
    if !Redeemable(full, id, t) || key in full.nonces || !authorized then (Denied, full)
    else
      var (answer, record) := Decide(full.capabilities[id], cancel, challenge, written);
      (answer, if record.None? then full else Set(full, id, record.value, Some(key), now))
  }

  /** What load_state makes of the file's bytes: it reads them when they are text, and
      values stand in them or nothing does. */
  predicate Loads(codec: Codec, raw: seq<Byte>)
    requires Lawful(codec)
  {
    var parsed := Parse(codec, raw);
    Text(raw) && ReplayFrom(EMPTY, parsed.values).Some? && !(parsed.trailing && parsed.values == [])
  }

  /** The bytes an append takes that leaves the record as `full` holds it. */
  function Cost(codec: Codec, full: Doc, id: Id, nonce: Option<NonceKey>, seenAt: nat): nat
  {
    if id !in full.capabilities then 0 else |Lines(codec, ChangeValues(id, full.capabilities[id], nonce, seenAt))|
  }

  class Store {
    const codec: Codec
    var file: Option<seq<Byte>>

    ghost var full: Doc
    ghost var issued: set<Id>
    ghost var clock: nat
    ghost var granted: map<Id, nat>
    ghost var spent: map<Id, nat>
    // bytes written by appends and by snapshots, how many snapshots, and what repairs cost
    ghost var appended: nat
    ghost var snapshots: nat
    ghost var compactions: nat
    ghost var repaired: nat

    function Raw(): seq<Byte>
      reads this
    {
      if file.None? then [] else file.value
    }

    function Size(): nat
      reads this
    {
      |Raw()|
    }

    ghost function OnDisk(): Parsed
      requires Lawful(codec)
      reads this
    {
      Parse(codec, Raw())
    }

    /** The document the journal's complete values replay to. */
    ghost function Replayed(): Option<Doc>
      requires Lawful(codec)
      reads this
    {
      ReplayFrom(EMPTY, OnDisk().values)
    }

    /** The next load succeeds. */
    ghost predicate Loadable()
      requires Lawful(codec)
      reads this
    {
      Loads(codec, Raw())
    }

    /** Nothing but complete values is in the file. */
    ghost predicate Whole()
      requires Lawful(codec)
      reads this
    {
      Text(Raw()) && !OnDisk().trailing
    }

    ghost predicate Bounded()
      reads this
    {
      snapshots + Size() <= appended + compactions + repaired
    }

    /** The journal replays to what the store holds, whatever stands after its last
        complete value. */
    ghost predicate Kept()
      reads this
    {
      Lawful(codec) && Replayed().Some? && Agrees(Replayed().value, full, clock, issued) && Bounded()
    }

    ghost predicate Recoverable()
      reads this
    {
      Kept() && UsesAccounted(full, granted, spent)
    }

    ghost predicate Valid()
      reads this
    {
      Recoverable() && Whole()
    }

    constructor (c: Codec)
      requires Lawful(c)
      ensures Valid() && full == EMPTY && issued == {} && file == None && fresh(this)
    {
      codec := c;
      file := None;
      full, issued, clock := EMPTY, {}, 0;
      granted, spent := map[], map[];
      appended, snapshots, compactions, repaired := 0, 0, 0, 0;
    }

    /** Replace the journal with one snapshot. */
    method SaveState(doc: Doc)
      requires Lawful(codec)
      modifies this`file, this`snapshots
      ensures file == Some(Line(codec, Snapshot(doc))) && snapshots == old(snapshots) + |file.value|
      ensures OnDisk() == Parsed([Snapshot(doc)], false) && Replayed() == Some(doc) && Whole()
    {
      file := Some(Line(codec, Snapshot(doc)));
      snapshots := snapshots + |file.value|;
      ParseLines(codec, [Snapshot(doc)]);
      LinesText(codec, [Snapshot(doc)]);
      assert Lines(codec, [Snapshot(doc)]) == file.value;
      assert ReplayFrom(EMPTY, [Snapshot(doc)]) == ReplayFrom(doc, []);
    }

    /** The replayed state without what is stale.  Bytes after the last complete
        value are dropped by replacing the journal with what replayed; a journal
        that is not text, with only such bytes, or with a value that cannot be
        applied, is refused and left as it is. */
    method Load(t: nat) returns (r: Result<Doc>)
      requires Lawful(codec)
      modifies this`file, this`snapshots, this`repaired
      ensures r.Ok? <==> old(Loadable())
      ensures r.Ok? ==> r.value == Purge(old(Replayed()).value, t)
      ensures r.Ok? ==> Replayed() == old(Replayed()) && Whole()
      ensures r.Err? || !old(OnDisk()).trailing ==> unchanged(this)
      ensures r.Ok? && old(OnDisk()).trailing ==>
        snapshots == old(snapshots) + Size() && repaired == old(repaired) + 2 * Size()
      ensures old(Bounded()) ==> Bounded()
    {
      if file.None? {
        return Ok(Purge(EMPTY, t));
      }
      if !Text(file.value) {
        return Err;
      }
      var parsed := Parse(codec, file.value);
      var state := Replay(parsed.values);
      if state.None? {
        return Err;
      }
      if parsed.trailing {
        if parsed.values == [] {
          return Err;
        }
        SaveState(state.value);
        repaired := repaired + 2 * |file.value|;
      }
      r := Ok(Purge(state.value, t));
    }

    /** The load every operation begins with: after a crash it makes the store as good as
        before, and a store it cannot load it leaves as it is. */
    method Recover(t: nat) returns (state: Option<Doc>)
      requires Recoverable() && clock <= t
      modifies this
      ensures state.Some? <==> old(Loadable())
      ensures state.None? ==> unchanged(this)
      ensures state.Some? ==> Valid() && clock == t && state.value == Purge(Replayed().value, t) == Purge(full, t)
      ensures full == old(full) && issued == old(issued) && granted == old(granted) && spent == old(spent)
      ensures appended == old(appended) && compactions == old(compactions)
      ensures old(Whole()) ==> state.Some? && file == old(file) && repaired == old(repaired)
    {
      var loaded := Load(t);
      if loaded.Err? {
        return None;
      }
      AgreeLater(Replayed().value, full, clock, t, issued);
      clock := t;
      state := Some(loaded.value);
    }

    /** The journal outweighs the state it replays to. */
    predicate Outweighs(size: nat, doc: Doc)
    {
      var live := |codec.write(Snapshot(doc))|;
      (if size < live then 0 else size - live) > live
    }

    /** Append values, each on a line of its own. */
    method Append(values: seq<Value>)
      requires Lawful(codec) && Whole() && Replayed().Some?
      modifies this`file, this`appended
      ensures Whole() && Replayed() == old(ReplayFrom(Replayed().value, values))
      ensures Size() == old(Size()) + |Lines(codec, values)| && appended == old(appended) + |Lines(codec, values)|
    {
      AppendedLines(codec, Raw(), values);
      file := Some(Raw() + Lines(codec, values));
      appended := appended + |Lines(codec, values)|;
    }

    /** Append what changed, then replace the journal by one snapshot when what it
        holds beyond the live state outweighs that state. */
    method SaveEntry(doc: Doc, id: Id, nonce: Option<NonceKey>) returns (ok: bool)
      requires Lawful(codec) && Whole() && Replayed().Some?
      modifies this`file, this`appended, this`snapshots, this`compactions
      ensures ok == Entries(doc, id, nonce).Some?
      ensures !ok ==> unchanged(this)
      ensures ok ==> Size() <= 2 * |codec.write(Snapshot(doc))| && Whole()
      ensures ok ==> Replayed() == Some(doc) || Replayed() == old(ReplayFrom(Replayed().value, Entries(doc, id, nonce).value))
      ensures ok ==> appended == old(appended) + |Lines(codec, Entries(doc, id, nonce).value)|
      ensures ok ==> var compacts := Outweighs(old(Size()) + |Lines(codec, Entries(doc, id, nonce).value)|, doc);
        && compactions == old(compactions) + (if compacts then 1 else 0)
        && snapshots == old(snapshots) + (if compacts then |Line(codec, Snapshot(doc))| else 0)
      ensures old(Bounded()) ==> Bounded()
    {
      var entries := Entries(doc, id, nonce);
      if entries.None? {
        return false;
      }
      ok := true;
      Append(entries.value);
      if Outweighs(Size(), doc) {
        SaveState(doc);
        compactions := compactions + 1;
      }
    }

    /** Issue a capability under a fresh id: `now` was read before the lock, `t` is
        when the state is loaded under it. */
    method Issue(id: Id, ttl: nat, maxUses: nat, rest: string, now: nat, t: nat) returns (ok: bool)
      requires Recoverable() && id !in issued && clock <= t && now <= t
      requires 0 < ttl && 0 < maxUses
      modifies this
      ensures ok <==> now + ttl < U64 && old(Loadable())
      ensures !ok ==> unchanged(this)
      ensures ok ==> Valid() && clock == t && issued == old(issued) + {id} && full.nonces == old(full.nonces)
      ensures ok ==> full.capabilities == old(full.capabilities)[id := Record("issued", Some(now + ttl), Some(maxUses), rest)]
      ensures ok ==> granted == old(granted)[id := maxUses] && spent == old(spent)[id := 0]
      ensures ok ==> AtMostTwice(old(full), id, None, 0, t)
      ensures ok ==> appended == old(appended) + Cost(codec, full, id, None, 0) && old(compactions) <= compactions <= old(compactions) + 1
    {
      if now + ttl >= U64 {
        return false;
      }
      var state := Recover(t);
      if state.None? {
        return false;
      }
      ok := true;
      var record := Record("issued", Some(now + ttl), Some(maxUses), rest);
      FreshId(Replayed().value, full, t, id, issued, record, maxUses, granted, spent);
      granted, spent, issued := granted[id := maxUses], spent[id := 0], issued + {id};
      Change(state.value, id, record, None, 0);
    }

    /** The journal is at most twice as long as the state that was saved: what was live, with
        the record as it is now and the nonce. */
    ghost predicate AtMostTwice(was: Doc, id: Id, nonce: Option<NonceKey>, seenAt: nat, t: nat)
      reads this
    {
      && id in full.capabilities
      && Size() <= 2 * |codec.write(Snapshot(Set(Purge(was, t), id, full.capabilities[id], nonce, seenAt)))|
    }

    /** The loaded state with one record set (and one nonce marked seen), saved. */
    method SaveChange(loaded: Doc, id: Id, record: Record, nonce: Option<NonceKey>, seenAt: nat)
      requires Lawful(codec) && Whole() && Replayed().Some?
      modifies this`file, this`appended, this`snapshots, this`compactions
      ensures Whole() && Replayed().Some?
      ensures Replayed().value == Set(loaded, id, record, nonce, seenAt)
           || Replayed().value == Set(old(Replayed()).value, id, record, nonce, seenAt)
      ensures Size() <= 2 * |codec.write(Snapshot(Set(loaded, id, record, nonce, seenAt)))|
      ensures appended == old(appended) + |Lines(codec, ChangeValues(id, record, nonce, seenAt))|
      ensures old(compactions) <= compactions <= old(compactions) + 1
      ensures old(Bounded()) ==> Bounded()
    {
      ghost var was := Replayed().value;
      var state := Set(loaded, id, record, nonce, seenAt);
      ReplayEntries(was, id, record, nonce, seenAt, state);
      EntriesAre(state, id, record, nonce, seenAt);
      var saved := SaveEntry(state, id, nonce);
    }

    /** Set one record of the loaded state (and mark one nonce seen), save. */
    method Change(loaded: Doc, id: Id, record: Record, nonce: Option<NonceKey>, seenAt: nat)
      requires Kept() && Whole() && id in issued && loaded == Purge(Replayed().value, clock) == Purge(full, clock)
      requires Changeable(Replayed().value, full, id, nonce, clock)
      requires UsesAccounted(Set(full, id, record, nonce, seenAt), granted, spent)
      modifies this
      ensures Valid() && clock == old(clock) && full == Set(old(full), id, record, nonce, seenAt)
      ensures issued == old(issued) && granted == old(granted) && spent == old(spent)
      ensures AtMostTwice(old(full), id, nonce, seenAt, clock)
      ensures appended == old(appended) + Cost(codec, full, id, nonce, seenAt) && repaired == old(repaired)
      ensures old(compactions) <= compactions <= old(compactions) + 1
    {
      ghost var was := Replayed().value;
      SaveChange(loaded, id, record, nonce, seenAt);
      ChangeKeeps(was, full, clock, id, record, nonce, seenAt, Replayed().value, issued);
      Account(Set(full, id, record, nonce, seenAt), issued, granted, spent);
    }

    /** The append of a change, stopped after k bytes. */
    method AppendPart(id: Id, record: Record, nonce: Option<NonceKey>, seenAt: nat, k: nat, ghost was: Doc)
      requires Lawful(codec) && Whole() && Replayed() == Some(was)
      requires k <= |Lines(codec, ChangeValues(id, record, nonce, seenAt))|
      modifies this`file, this`appended
      ensures old(Bounded()) ==> Bounded()
      ensures Replayed() == Some(CutDoc(was, id, record, nonce, seenAt, Complete(codec, ChangeValues(id, record, nonce, seenAt), k)))
      ensures Loadable() <==> Resumes(codec, old(Raw()), ChangeValues(id, record, nonce, seenAt), k)
    {
      var raw := Raw();
      CutAppend(codec, raw, was, id, record, nonce, seenAt, k);
      CutLoadsExactly(codec, raw, was, id, record, nonce, seenAt, k);
      file := Some(raw + Lines(codec, ChangeValues(id, record, nonce, seenAt))[..k]);
      appended := appended + k;
    }

    /** The same change by a process that stops when k bytes of its append were written.
        `ids`, `allowed` and `used` are the ids issued and the uses accounted for once the
        record is there. */
    method Interrupted(loaded: Doc, id: Id, record: Record, nonce: Option<NonceKey>, seenAt: nat, k: nat,
                       ghost ids: set<Id>, ghost allowed: map<Id, nat>, ghost used: map<Id, nat>)
      requires Valid() && issued <= ids && id in ids && loaded == Purge(Replayed().value, clock)
      requires Changeable(Replayed().value, full, id, nonce, clock)
      requires UsesAccounted(Set(full, id, record, nonce, seenAt), allowed, used)
      requires k <= |Lines(codec, ChangeValues(id, record, nonce, seenAt))|
      modifies this
      ensures Recoverable() && clock == old(clock) && issued == ids
      ensures full == CutDoc(old(full), id, record, nonce, seenAt, Complete(codec, ChangeValues(id, record, nonce, seenAt), k))
      ensures Loadable() <==> Resumes(codec, old(Raw()), ChangeValues(id, record, nonce, seenAt), k)
    {
      ghost var was := Replayed().value;
      AppendPart(id, record, nonce, seenAt, k, was);
      ghost var n := Complete(codec, ChangeValues(id, record, nonce, seenAt), k);
      KnownMore(was, full, clock, issued, ids);
      CutKeeps(was, full, clock, id, record, nonce, seenAt, n, ids);
      CutUses(full, id, record, nonce, seenAt, n, granted, spent, allowed, used);
      ghost var done := n == if nonce.None? then 1 else 2;
      Account(CutDoc(full, id, record, nonce, seenAt, n), ids, if done then allowed else granted, if done then used else spent);
    }

    /** What the store holds from now on. */
    ghost method Account(doc: Doc, ids: set<Id>, allowed: map<Id, nat>, used: map<Id, nat>)
      requires Lawful(codec) && Replayed().Some? && Bounded()
      requires Agrees(Replayed().value, doc, clock, ids) && UsesAccounted(doc, allowed, used)
      modifies this`full, this`issued, this`granted, this`spent
      ensures Recoverable() && full == doc && issued == ids && granted == allowed && spent == used
    {
      full, issued, granted, spent := doc, ids, allowed, used;
    }

    /** One redemption or cancellation.  `shaped` stands for the request's shape, `authorized`
        for its authorization id and its proof; `written` for whether the secret's field
        holds a value, `challenge` for a resource whose value comes later. */
    method Redeem(id: Id, nonce: string, cancel: bool, shaped: bool, authorized: bool, challenge: bool, written: bool,
                  now: nat, t: nat) returns (answer: Answer)
      requires Recoverable() && clock <= t && now <= t && ':' !in id
      modifies this
      ensures Recoverable() && issued == old(issued) && granted == old(granted)
      ensures !shaped ==> answer == Denied && unchanged(this)
      ensures shaped && !old(Loadable()) ==> answer == Broken && unchanged(this)
      ensures shaped && old(Loadable()) ==> Valid() && clock == t
      ensures shaped && old(Loadable()) ==>
        (answer, full) == Outcome(old(full), id, id + ":" + nonce, cancel, authorized, challenge, written, now, t)
      ensures spent == if answer == Redeemed then old(spent[id := spent[id] + 1]) else old(spent)
      ensures answer !in {Denied, Broken} ==> AtMostTwice(old(full), id, Some(id + ":" + nonce), now, t)
      ensures appended == old(appended) + if answer in {Denied, Broken} then 0 else Cost(codec, full, id, Some(id + ":" + nonce), now)
      ensures old(compactions) <= compactions <= old(compactions) + 1
    {
      if !shaped {
        return Denied;
      }
      var key := id + ":" + nonce;
      OwnerOf(id, nonce);
      var state := Recover(t);
      if state.None? {
        return Broken;
      }
      var record := Admit(state.value, id, key, authorized, now);
      if record.None? {
        return Denied;
      }
      answer := Settle(state.value, id, record.value, key, cancel, challenge, written, now);
    }

    /** What an admitted request comes to, recorded with its nonce. */
    method Settle(loaded: Doc, id: Id, record: Record, key: NonceKey, cancel: bool, challenge: bool, written: bool, now: nat)
      returns (answer: Answer)
      requires Valid() && Owner(key) == Some(id) && loaded == Purge(Replayed().value, clock) == Purge(full, clock)
      requires Redeemable(full, id, clock) && record == full.capabilities[id]
      modifies this
      ensures Valid() && issued == old(issued) && granted == old(granted) && clock == old(clock)
      ensures var (decided, next) := Decide(record, cancel, challenge, written);
        answer == decided && full == if next.None? then old(full) else Set(old(full), id, next.value, Some(key), now)
      ensures spent == if answer == Redeemed then old(spent[id := spent[id] + 1]) else old(spent)
      ensures answer != Denied ==> AtMostTwice(old(full), id, Some(key), now, clock)
      ensures appended == old(appended) + if answer == Denied then 0 else Cost(codec, full, id, Some(key), now)
      ensures old(compactions) <= compactions <= old(compactions) + 1
    {
      var (decided, next) := Decide(record, cancel, challenge, written);
      answer := decided;
      if next.Some? {
        DecidedUses(full, id, record, answer == Redeemed, next.value, key, now, granted, spent);
        if answer == Redeemed {
          spent := spent[id := spent[id] + 1];
        }
        Change(loaded, id, next.value, Some(key), now);
      }
    }

    /** Find the capability in the loaded state, its nonce unseen. */
    method Admit(loaded: Doc, id: Id, key: NonceKey, authorized: bool, now: nat) returns (record: Option<Record>)
      requires Valid() && now <= clock && Owner(key) == Some(id) && loaded == Purge(full, clock)
      ensures record == if Redeemable(full, id, clock) && key !in full.nonces && authorized then Some(full.capabilities[id]) else None
    {
      assert Holds(full, id, clock) <==> id in loaded.capabilities;
      if id !in loaded.capabilities {
        return None;
      }
      var found := loaded.capabilities[id];
      if found.remainingUses.None? || found.expiresAt.None? || found.state != "issued" || found.expiresAt.value <= now
         || found.remainingUses.value < 1 || !authorized {
        return None;
      }
      assert key in full.nonces <==> key in loaded.nonces by { assert KeepsNonce(full, key, clock); }
      record := if key in loaded.nonces then None else Some(found);
    }

    /** Whether a capability could be redeemed: what is purged and compacted away
        changes no answer. */
    method Live(id: Id, t: nat, now: nat) returns (answer: Option<bool>)
      requires Recoverable() && clock <= t <= now
      modifies this
      ensures Recoverable() && full == old(full) && issued == old(issued) && granted == old(granted) && spent == old(spent)
      ensures answer == if old(Loadable()) then Some(Redeemable(full, id, now)) else None
      ensures if answer.Some? then Valid() else unchanged(this)
    {
      var doc := Recover(t);
      answer := if doc.None? then None else Some(Redeemable(doc.value, id, now));
    }

    /** How many capabilities could be redeemed. */
    method ActiveCount(t: nat, now: nat) returns (count: Option<nat>)
      requires Recoverable() && clock <= t <= now
      modifies this
      ensures Recoverable() && full == old(full) && issued == old(issued) && granted == old(granted) && spent == old(spent)
      ensures count == if old(Loadable()) then Some(|set id | id in full.capabilities && Redeemable(full, id, now)|) else None
      ensures if count.Some? then Valid() else unchanged(this)
    {
      var doc := Recover(t);
      if doc.None? {
        return None;
      }
      var active := set id | id in doc.value.capabilities && Redeemable(doc.value, id, now);
      assert active == set id | id in full.capabilities && Redeemable(full, id, now);
      count := Some(|active|);
    }
  }

  /** What whole lines appended to a whole journal make of it. */
  lemma AppendedLines(codec: Codec, raw: seq<Byte>, values: seq<Value>)
    requires Lawful(codec) && Text(raw) && !Parse(codec, raw).trailing && ReplayFrom(EMPTY, Parse(codec, raw).values).Some?
    ensures var after := Parse(codec, raw + Lines(codec, values));
      && Text(raw + Lines(codec, values)) && !after.trailing
      && ReplayFrom(EMPTY, after.values) == ReplayFrom(ReplayFrom(EMPTY, Parse(codec, raw).values).value, values)
  {
    ParseLines(codec, values);
    ParseAppend(codec, raw, Lines(codec, values));
    ReplayAppend(EMPTY, Parse(codec, raw).values, values);
    LinesText(codec, values);
    TextAppend(raw, Lines(codec, values));
  }

  /** Documents that purge to the same now purge to the same ever after. */
  lemma PurgesAgree(a: Doc, b: Doc, early: nat, late: nat)
    requires early <= late && Purge(a, early) == Purge(b, early)
    ensures Purge(a, late) == Purge(b, late)
  {
    PurgeTwice(a, early, late);
    PurgeTwice(b, early, late);
  }

  /** The replayed document and the one where nothing is purged agree about all that is live. */
  ghost predicate Agrees(was: Doc, full: Doc, clock: nat, issued: set<Id>)
  {
    Purge(was, clock) == Purge(full, clock) && Known(was, issued) && Known(full, issued)
  }

  lemma AgreeLater(was: Doc, full: Doc, early: nat, late: nat, issued: set<Id>)
    requires early <= late && Agrees(was, full, early, issued)
    ensures Agrees(was, full, late, issued)
  {
    PurgesAgree(was, full, early, late);
  }

  lemma KnownMore(was: Doc, full: Doc, t: nat, issued: set<Id>, ids: set<Id>)
    requires Agrees(was, full, t, issued) && issued <= ids
    ensures Agrees(was, full, t, ids)
  {
  }

  /** A decision takes one use when it redeems, and none otherwise. */
  lemma DecidedUses(full: Doc, id: Id, record: Record, redeemed: bool, next: Record, key: NonceKey, now: nat,
                    granted: map<Id, nat>, spent: map<Id, nat>)
    requires UsesAccounted(full, granted, spent) && id in full.capabilities && record == full.capabilities[id]
    requires record.remainingUses.Some? && record.remainingUses.value > 0
    requires next.remainingUses == Some(if redeemed then record.remainingUses.value - 1 else record.remainingUses.value)
    ensures UsesAccounted(Set(full, id, next, Some(key), now), granted, if redeemed then spent[id := spent[id] + 1] else spent)
  {
  }

  /** A fresh id can be given a record with all its uses left. */
  lemma FreshId(was: Doc, full: Doc, t: nat, id: Id, issued: set<Id>, record: Record, maxUses: nat,
                granted: map<Id, nat>, spent: map<Id, nat>)
    requires Agrees(was, full, t, issued) && id !in issued && UsesAccounted(full, granted, spent)
    requires record.remainingUses == Some(maxUses)
    ensures Agrees(was, full, t, issued + {id}) && Changeable(was, full, id, None, t)
    ensures UsesAccounted(Set(full, id, record, None, 0), granted[id := maxUses], spent[id := 0])
  {
  }

  lemma HoldTogether(was: Doc, full: Doc, t: nat, id: Id)
    requires Purge(was, t) == Purge(full, t)
    ensures Holds(was, id, t) <==> Holds(full, id, t)
  {
    assert Holds(was, id, t) <==> id in Purge(was, t).capabilities;
    assert Holds(full, id, t) <==> id in Purge(full, t).capabilities;
  }

  /** A capability that is live, or has no nonce yet, and a nonce of its own. */
  ghost predicate Changeable(was: Doc, full: Doc, id: Id, nonce: Option<NonceKey>, t: nat)
  {
    && (Holds(full, id, t) || (NoNonceOf(was, id) && NoNonceOf(full, id)))
    && (nonce.Some? ==> Owner(nonce.value) == Some(id))
  }

  lemma KnownAfter(doc: Doc, id: Id, record: Record, nonce: Option<NonceKey>, seenAt: nat, t: nat, issued: set<Id>)
    requires Known(doc, issued) && id in issued && (nonce.Some? ==> Owner(nonce.value) == Some(id))
    ensures Known(Set(doc, id, record, nonce, seenAt), issued) && Known(Set(Purge(doc, t), id, record, nonce, seenAt), issued)
  {
  }

  /** The change made on disk, to the whole document or to the purged one, agrees
      with the change made where nothing is purged. */
  lemma ChangeKeeps(was: Doc, full: Doc, t: nat, id: Id, record: Record, nonce: Option<NonceKey>, seenAt: nat,
                    after: Doc, issued: set<Id>)
    requires Agrees(was, full, t, issued) && id in issued && Changeable(was, full, id, nonce, t)
    requires after == Set(was, id, record, nonce, seenAt) || after == Set(Purge(was, t), id, record, nonce, seenAt)
    ensures Agrees(after, Set(full, id, record, nonce, seenAt), t, issued)
  {
    HoldTogether(was, full, t, id);
    SetPurged(was, t, id, record, nonce, seenAt);
    SetPurged(full, t, id, record, nonce, seenAt);
    KnownAfter(was, id, record, nonce, seenAt, t, issued);
    KnownAfter(full, id, record, nonce, seenAt, t, issued);
  }

  /** What is held when the first n values of a change were written: nothing of it, the
      nonce alone, or all of it. */
  function CutDoc(doc: Doc, id: Id, record: Record, nonce: Option<NonceKey>, seenAt: nat, n: nat): Doc
  {
    if n == (if nonce.None? then 1 else 2) then Set(doc, id, record, nonce, seenAt)
    else if n == 0 || nonce.None? then doc
    else doc.(nonces := doc.nonces[nonce.value := seenAt])
  }

  lemma CutUses(full: Doc, id: Id, record: Record, nonce: Option<NonceKey>, seenAt: nat, n: nat, granted: map<Id, nat>,
                spent: map<Id, nat>, allowed: map<Id, nat>, used: map<Id, nat>)
    requires UsesAccounted(full, granted, spent) && UsesAccounted(Set(full, id, record, nonce, seenAt), allowed, used)
    ensures var cut := CutDoc(full, id, record, nonce, seenAt, n);
      if n == (if nonce.None? then 1 else 2) then UsesAccounted(cut, allowed, used) else UsesAccounted(cut, granted, spent)
  {
  }

  /** The values a change appends. */
  function ChangeValues(id: Id, record: Record, nonce: Option<NonceKey>, seenAt: nat): seq<Value>
  {
    if nonce.None? then [CapabilityEntry(id, record)] else [NonceEntry(nonce.value, seenAt), CapabilityEntry(id, record)]
  }

  lemma NonceAlone(was: Doc, full: Doc, t: nat, id: Id, key: NonceKey, seenAt: nat, issued: set<Id>)
    requires Agrees(was, full, t, issued) && id in issued && Owner(key) == Some(id)
    ensures Agrees(was.(nonces := was.nonces[key := seenAt]), full.(nonces := full.nonces[key := seenAt]), t, issued)
  {
    HoldTogether(was, full, t, id);
    PurgeNonce(was, t, id, key, seenAt);
    PurgeNonce(full, t, id, key, seenAt);
  }

  lemma PurgeNonce(doc: Doc, t: nat, id: Id, key: NonceKey, seenAt: nat)
    requires Owner(key) == Some(id)
    ensures Purge(doc.(nonces := doc.nonces[key := seenAt]), t)
         == if Holds(doc, id, t) then Purge(doc, t).(nonces := Purge(doc, t).nonces[key := seenAt]) else Purge(doc, t)
  {
    var after := doc.(nonces := doc.nonces[key := seenAt]);
    assert forall k :: KeepsNonce(after, k, t) <==> KeepsNonce(doc, k, t);
    assert Purge(after, t).capabilities == Purge(doc, t).capabilities;
    assert Purge(after, t).nonces == if Holds(doc, id, t) then Purge(doc, t).nonces[key := seenAt] else Purge(doc, t).nonces;
  }

  lemma CutKeeps(was: Doc, full: Doc, t: nat, id: Id, record: Record, nonce: Option<NonceKey>, seenAt: nat, n: nat, ids: set<Id>)
    requires Agrees(was, full, t, ids) && id in ids && Changeable(was, full, id, nonce, t)
    ensures Agrees(CutDoc(was, id, record, nonce, seenAt, n), CutDoc(full, id, record, nonce, seenAt, n), t, ids)
  {
    if n == (if nonce.None? then 1 else 2) {
      ChangeKeeps(was, full, t, id, record, nonce, seenAt, Set(was, id, record, nonce, seenAt), ids);
    } else if n > 0 && nonce.Some? {
      NonceAlone(was, full, t, id, nonce.value, seenAt, ids);
    }
  }

  /** A crash while the entries of a change are appended, at any byte k: the journal
      then replays to the state before, to that state with only the nonce seen, or
      to the state after; a record is never there without its nonce. */
  lemma CutAppend(codec: Codec, raw: seq<Byte>, doc: Doc, id: Id, record: Record, nonce: Option<NonceKey>,
                  seenAt: nat, k: nat)
    requires Lawful(codec) && !Parse(codec, raw).trailing && ReplayFrom(EMPTY, Parse(codec, raw).values) == Some(doc)
    requires k <= |Lines(codec, ChangeValues(id, record, nonce, seenAt))|
    ensures var values := ChangeValues(id, record, nonce, seenAt);
            var parsed := Parse(codec, raw + Lines(codec, values)[..k]);
            var n := Complete(codec, values, k);
            && ReplayFrom(EMPTY, parsed.values) == Some(CutDoc(doc, id, record, nonce, seenAt, n))
            && (parsed.values == [] <==> Parse(codec, raw).values == [] && n == 0)
  {
    var values := ChangeValues(id, record, nonce, seenAt);
    var cut := Lines(codec, values)[..k];
    var n := Complete(codec, values, k);
    ParseAppend(codec, raw, cut);
    CutLines(codec, values, k);
    ReplayAppend(EMPTY, Parse(codec, raw).values, values[..n]);
    ReplayCut(doc, id, record, nonce, seenAt, n);
  }

  /** A journal whose append was cut at byte k loads: the cut is not inside a character, and
      a complete value is there or nothing is. */
  predicate Resumes(codec: Codec, raw: seq<Byte>, values: seq<Value>, k: nat)
    requires Lawful(codec) && k <= |Lines(codec, values)|
  {
    && AtChar(Lines(codec, values), k)
    && (Parse(codec, raw).values != [] || Complete(codec, values, k) > 0 || k == 0)
  }

  lemma CutLoadsExactly(codec: Codec, raw: seq<Byte>, doc: Doc, id: Id, record: Record, nonce: Option<NonceKey>,
                        seenAt: nat, k: nat)
    requires Lawful(codec) && Text(raw) && !Parse(codec, raw).trailing && ReplayFrom(EMPTY, Parse(codec, raw).values) == Some(doc)
    requires k <= |Lines(codec, ChangeValues(id, record, nonce, seenAt))|
    ensures var values := ChangeValues(id, record, nonce, seenAt);
            Loads(codec, raw + Lines(codec, values)[..k]) <==> Resumes(codec, raw, values, k)
  {
    var values := ChangeValues(id, record, nonce, seenAt);
    var cut := Lines(codec, values)[..k];
    CutAppend(codec, raw, doc, id, record, nonce, seenAt, k);
    CutReads(codec, raw, values, k);
    ParseAppend(codec, raw, cut);
    CutLines(codec, values, k);
  }

  /** An append to a journal that holds something can be cut anywhere if and only if every
      text it writes is ASCII. */
  lemma AnyCutLoads(codec: Codec, raw: seq<Byte>, doc: Doc, id: Id, record: Record, nonce: Option<NonceKey>, seenAt: nat)
    requires Lawful(codec) && Text(raw) && !Parse(codec, raw).trailing && ReplayFrom(EMPTY, Parse(codec, raw).values) == Some(doc)
    requires Parse(codec, raw).values != []
    ensures var values := ChangeValues(id, record, nonce, seenAt);
            (forall k :: 0 <= k <= |Lines(codec, values)| ==> Loads(codec, raw + Lines(codec, values)[..k]))
            <==> AsciiString(id) && AsciiRecord(record) && (nonce.Some? ==> AsciiString(nonce.value))
  {
    var values := ChangeValues(id, record, nonce, seenAt);
    var lines := Lines(codec, values);
    LinesText(codec, values);
    AsciiChange(id, record, nonce, seenAt);
    if Ascii(lines) {
      forall k | 0 <= k <= |lines| ensures Loads(codec, raw + lines[..k]) {
        CutLoadsExactly(codec, raw, doc, id, record, nonce, seenAt, k);
      }
    } else {
      var k := InsideChar(lines);
      CutLoadsExactly(codec, raw, doc, id, record, nonce, seenAt, k);
      assert !Loads(codec, raw + lines[..k]);
    }
  }

  lemma AsciiChange(id: Id, record: Record, nonce: Option<NonceKey>, seenAt: nat)
    ensures var values := ChangeValues(id, record, nonce, seenAt);
            (forall i :: 0 <= i < |values| ==> AsciiValue(values[i]))
            <==> AsciiString(id) && AsciiRecord(record) && (nonce.Some? ==> AsciiString(nonce.value))
  {
    var values := ChangeValues(id, record, nonce, seenAt);
    var last := |values| - 1;
    assert AsciiValue(values[last]) <==> AsciiString(id) && AsciiRecord(record);
    assert nonce.Some? ==> (AsciiValue(values[0]) <==> AsciiString(nonce.value));
  }

  /** The nonce an accent is in: one of the cuts of its redemption leaves a journal that no
      load reads, whatever complete values it holds. */
  lemma AccentBreaksJournal(codec: Codec, raw: seq<Byte>, doc: Doc, id: Id, record: Record, seenAt: nat) returns (k: nat)
    requires Lawful(codec) && Text(raw) && !Parse(codec, raw).trailing && ReplayFrom(EMPTY, Parse(codec, raw).values) == Some(doc)
    requires Parse(codec, raw).values != []
    ensures var lines := Lines(codec, ChangeValues(id, record, Some(id + ":" + "\U{00E9}"), seenAt));
            k <= |lines| && !Loads(codec, raw + lines[..k]) && Parse(codec, raw + lines[..k]).values != []
  {
    var key := id + ":" + "\U{00E9}";
    var values := ChangeValues(id, record, Some(key), seenAt);
    var lines := Lines(codec, values);
    assert key[|id| + 1] == '\U{00E9}' && !AsciiString(key);
    LinesText(codec, values);
    AsciiChange(id, record, Some(key), seenAt);
    k := InsideChar(lines);
    CutLoadsExactly(codec, raw, doc, id, record, Some(key), seenAt, k);
    CutAppend(codec, raw, doc, id, record, Some(key), seenAt, k);
  }

  lemma EntriesAre(held: Doc, id: Id, record: Record, nonce: Option<NonceKey>, seenAt: nat)
    requires id in held.capabilities && held.capabilities[id] == record
    requires nonce.Some? ==> nonce.value in held.nonces && held.nonces[nonce.value] == seenAt
    ensures Entries(held, id, nonce) == Some(ChangeValues(id, record, nonce, seenAt))
  {
    if nonce.Some? {
      assert [NonceEntry(nonce.value, seenAt)] + [CapabilityEntry(id, record)] == ChangeValues(id, record, nonce, seenAt);
    }
  }

  lemma ReplayCut(doc: Doc, id: Id, record: Record, nonce: Option<NonceKey>, seenAt: nat, n: nat)
    requires n <= |ChangeValues(id, record, nonce, seenAt)|
    ensures ReplayFrom(doc, ChangeValues(id, record, nonce, seenAt)[..n]) == Some(CutDoc(doc, id, record, nonce, seenAt, n))
  {
    var values := ChangeValues(id, record, nonce, seenAt);
    var held := Set(doc, id, record, nonce, seenAt);
    ReplayEntries(doc, id, record, nonce, seenAt, held);
    assert Entries(held, id, nonce).value == values;
    if n == |values| {
      assert values[..n] == values;
    } else if n > 0 {
      assert values[..1] == [NonceEntry(nonce.value, seenAt)];
      assert ReplayFrom(doc, values[..1]) == ReplayFrom(doc.(nonces := doc.nonces[nonce.value := seenAt]), []);
    }
  }
}
