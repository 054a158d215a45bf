/** Field-bound acquisition tokens (acquisition/mod.rs, proof.rs, role.rs): a workload signs
    an exact request, gets a bearer bound to one consumer, item and field, and spends it once.

    `issue` and `consume` each run under the state lock, so a run is a sequence of events.
    The grant a request finds, the clocks, the random token, the signature check and what
    reading the vault answers are parameters of the events. */
module Acquisition {
  import opened Options

  type Hash = string

  // ---- what a request must look like ------------------------------------------------------

  predicate Alphanumeric(c: char)
  {
    'a' <= c <= 'z' || 'A' <= c <= 'Z' || '0' <= c <= '9'
  }

  predicate ExactName(s: string)
  {
    s != "" && forall i :: 0 <= i < |s| ==> Alphanumeric(s[i]) || s[i] in "._-"
  }

  const ROLE := "role:"

  /** An exact item name, or `role:` before an exact role. */
  predicate ExactCoordinate(s: string)
  {
    if ROLE <= s then ExactName(s[|ROLE|..]) else ExactName(s)
  }

  /** A Unicode control character. */
  predicate Control(c: char)
  {
    c as int < 0x20 || 0x7f <= c as int < 0xa0
  }

  /** A Unicode white-space character. */
  predicate White(c: char)
  {
    var n := c as int;
    || 9 <= n <= 13 || n == 0x20 || n == 0x85 || n == 0xa0 || n == 0x1680 || 0x2000 <= n <= 0x200a
    || n == 0x2028 || n == 0x2029 || n == 0x202f || n == 0x205f || n == 0x3000
  }

  predicate ValidWorkload(s: string)
  {
    s != "" && !White(s[0]) && !White(s[|s| - 1]) && forall i :: 0 <= i < |s| ==> !Control(s[i])
  }

  predicate ValidNonce(s: string)
  {
    |s| == 43 && forall i :: 0 <= i < |s| ==> Alphanumeric(s[i]) || s[i] in "-_"
  }

  predicate Coordinates(consumer: string, item: string, field: string)
  {
    ExactName(consumer) && ExactCoordinate(item) && ExactName(field) && field != "context"
  }

  datatype Ask = Ask(consumer: string, item: string, field: string, workload: string, timestamp: nat, nonce: string,
                     signature: string)

  predicate WellFormed(ask: Ask)
  {
    Coordinates(ask.consumer, ask.item, ask.field) && ValidWorkload(ask.workload) && ValidNonce(ask.nonce)
  }

  // ---- the signed text --------------------------------------------------------------------

  function Digits(n: nat): (s: string)
    ensures s != "" && forall i :: 0 <= i < |s| ==> '0' <= s[i] <= '9'
  {
    var last := ['0' + (n % 10) as char];
    if n < 10 then last else Digits(n / 10) + last
  }

  function Join(parts: seq<string>): string
    requires parts != []
  {
    if |parts| == 1 then parts[0] else parts[0] + "\0" + Join(parts[1..])
  }

  function Parts(ask: Ask): seq<string>
  {
    ["SKARBIEC-WORKLOAD-ACQUISITION", "v1", ask.consumer, ask.item, ask.field, ask.workload, Digits(ask.timestamp), ask.nonce]
  }

  /** The text a workload signs. */
  function Payload(ask: Ask): string
  {
    Join(Parts(ask))
  }

  function ProofKey(workload: string, nonce: string): string
  {
    workload + "\0" + nonce
  }

  ghost predicate NoNul(s: string)
  {
    '\0' !in s
  }

  lemma {:induction false} DigitsApart(a: nat, b: nat)
    requires Digits(a) == Digits(b)
    ensures a == b
  {
    var s, t := Digits(a), Digits(b);
    assert s[|s| - 1] == '0' + (a % 10) as char && t[|t| - 1] == '0' + (b % 10) as char;
    assert a % 10 == b % 10;
    if a >= 10 {
      assert |s| == |Digits(a / 10)| + 1;
    }
    if b >= 10 {
      assert |t| == |Digits(b / 10)| + 1;
    }
    if a >= 10 && b >= 10 {
      assert s[..|s| - 1] == Digits(a / 10) && t[..|t| - 1] == Digits(b / 10);
      DigitsApart(a / 10, b / 10);
    }
  }

  function BeforeNul(s: string): nat
  {
    if s == "" || s[0] == '\0' then 0 else 1 + BeforeNul(s[1..])
  }

  lemma {:induction false} HeadLength(a: string, x: string)
    requires NoNul(a)
    ensures BeforeNul(a + "\0" + x) == |a|
  {
    if a != "" {
      HeadLength(a[1..], x);
      assert (a + "\0" + x)[1..] == a[1..] + "\0" + x;
    }
  }

  /** What stands before the first separator is read off. */
  lemma HeadApart(a: string, b: string, x: string, y: string)
    requires NoNul(a) && NoNul(b) && a + "\0" + x == b + "\0" + y
    ensures a == b && x == y
  {
    var s, t := a + "\0" + x, b + "\0" + y;
    HeadLength(a, x);
    HeadLength(b, y);
    assert a == s[..|a|] && b == t[..|b|] && x == s[|a| + 1..] && y == t[|b| + 1..];
  }

  lemma {:induction false} JoinApart(p: seq<string>, q: seq<string>)
    requires p != [] && |p| == |q| && Join(p) == Join(q)
    requires forall i :: 0 <= i < |p| ==> NoNul(p[i]) && NoNul(q[i])
    ensures p == q
  {
    if |p| > 1 {
      HeadApart(p[0], q[0], Join(p[1..]), Join(q[1..]));
      JoinApart(p[1..], q[1..]);
      assert p == [p[0]] + p[1..] && q == [q[0]] + q[1..];
    } else {
      assert p == [p[0]] && q == [q[0]];
    }
  }

  lemma NamesHaveNoNul(ask: Ask)
    requires WellFormed(ask)
    ensures forall i :: 0 <= i < 8 ==> NoNul(Parts(ask)[i])
  {
    CoordinateHasNoNul(ask.item);
  }

  lemma CoordinateHasNoNul(s: string)
    requires ExactCoordinate(s)
    ensures NoNul(s)
  {
    if ROLE <= s {
      assert s == ROLE + s[|ROLE|..];
    }
  }

  /** Two well-formed requests with one signed text ask for the same thing at the same time
      for the same workload under the same nonce: no part can be moved into another. */
  lemma PayloadInjective(a: Ask, b: Ask)
    requires WellFormed(a) && WellFormed(b) && Payload(a) == Payload(b)
    ensures a == b.(signature := a.signature)
  {
    NamesHaveNoNul(a);
    NamesHaveNoNul(b);
    JoinApart(Parts(a), Parts(b));
    DigitsApart(a.timestamp, b.timestamp);
    assert a.consumer == Parts(a)[2] && a.item == Parts(a)[3] && a.field == Parts(a)[4] && a.workload == Parts(a)[5];
    assert Digits(a.timestamp) == Parts(a)[6] && a.nonce == Parts(a)[7];
  }

  /** What is hashed to remember a nonce states the workload and the nonce. */
  lemma ProofKeyInjective(a: Ask, b: Ask)
    requires WellFormed(a) && WellFormed(b) && ProofKey(a.workload, a.nonce) == ProofKey(b.workload, b.nonce)
    ensures a.workload == b.workload && a.nonce == b.nonce
  {
    HeadApart(a.workload, b.workload, a.nonce, b.nonce);
  }

  // ---- the state and its two steps ----------------------------------------------------------

  datatype Token = Token(consumer: string, item: string, field: string, expiresAt: nat, workload: string)
  datatype Newest = Newest(timestamp: nat, expiresAt: nat)
  datatype State = State(tokens: map<Hash, Token>, proofs: map<Hash, nat>, workloads: map<string, Newest>)

  const EMPTY := State(map[], map[], map[])

  datatype Grant = Grant(publicKey: string, expiresAt: nat)
  datatype Verdict = Verified | Refuted | NotAKey
  datatype Target = Present | FieldMissing | Unreadable

  /** What an issue finds outside the state: the active grant for the request, the clock read
      before the lock is taken, the vault's answer about the field, and a random token. */
  datatype Found = Found(grant: Option<Grant>, now: nat, target: Target, token: string)

  /** What reading the field answers, once everything else allows it. */
  datatype Reading = Available(value: string) | Withheld | Broken

  datatype Crypto = Crypto(hash: string -> Hash, verify: (string, string, string) -> Verdict)

  datatype Error = BadKey | Missing | Vault | Collision

  datatype Answer = Denied | Issued(token: string, expiresAt: nat) | Read(value: string) | Failed(error: Error)

  datatype Event =
    | Issue(ask: Ask, found: Found)
    | Consume(consumer: string, presented: string, item: string, field: string, now: nat, reading: Reading)

  function Purged(s: State, now: nat): (r: State)
  {
    State(map h | h in s.tokens && s.tokens[h].expiresAt > now :: s.tokens[h],
          map h | h in s.proofs && s.proofs[h] > now :: s.proofs[h],
          map w | w in s.workloads && s.workloads[w].expiresAt > now :: s.workloads[w])
  }

  /** What an issue answers before it takes the lock; None lets it through. */
  function Screen(c: Crypto, ask: Ask, found: Found): (r: Option<Answer>)
  {
    if !WellFormed(ask) || found.grant.None? || ask.timestamp > found.now then Some(Denied)
    else match c.verify(found.grant.value.publicKey, Payload(ask), ask.signature)
      case Refuted => Some(Denied)
      case NotAKey => Some(Failed(BadKey))
      case Verified =>
        match found.target
        case FieldMissing => Some(Failed(Missing))
        case Unreadable => Some(Failed(Vault))
        case Present => None
  }

  function ProofHash(c: Crypto, ask: Ask): Hash
  {
    c.hash(ProofKey(ask.workload, ask.nonce))
  }

  predicate Replayed(c: Crypto, s: State, ask: Ask)
  {
    || (ask.workload in s.workloads && ask.timestamp < s.workloads[ask.workload].timestamp)
    || ProofHash(c, ask) in s.proofs
  }

  function Recorded(c: Crypto, s: State, ask: Ask, token: string, expiresAt: nat): State
  {
    State(s.tokens[c.hash(token) := Token(ask.consumer, ask.item, ask.field, expiresAt, ask.workload)],
          s.proofs[ProofHash(c, ask) := expiresAt],
          s.workloads[ask.workload := Newest(ask.timestamp, expiresAt)])
  }

  function IssueStep(c: Crypto, s: State, ask: Ask, found: Found): (State, Answer)
  {
    var refused := Screen(c, ask, found);
    if refused.Some? then (s, refused.value)
    else
      var live := Purged(s, found.now);
      if Replayed(c, live, ask) then (s, Denied)
      else if c.hash(found.token) in live.tokens then (s, Failed(Collision))
      else
        var expiresAt := found.grant.value.expiresAt;
        (Recorded(c, live, ask, found.token, expiresAt), Issued(found.token, expiresAt))
  }

  function ConsumeStep(c: Crypto, s: State, consumer: string, presented: string, item: string, field: string, now: nat,
                       reading: Reading): (State, Answer)
  {
    var h := c.hash(presented);
    if !Coordinates(consumer, item, field) || presented == "" || h !in s.tokens then (s, Denied)
    else if s.tokens[h].expiresAt <= now then (s.(tokens := s.tokens - {h}), Denied)
    else if !Bound(s.tokens[h], consumer, item, field) then (s, Denied)
    else match reading
      case Withheld => (s, Denied)
      case Broken => (s, Failed(Vault))
      case Available(value) => (s.(tokens := s.tokens - {h}), Read(value))
  }

  predicate Bound(t: Token, consumer: string, item: string, field: string)
  {
    t.consumer == consumer && t.item == item && t.field == field
  }

  function Step(c: Crypto, s: State, e: Event): (State, Answer)
  {
    match e
    case Issue(ask, found) => IssueStep(c, s, ask, found)
    case Consume(consumer, presented, item, field, now, reading) =>
      ConsumeStep(c, s, consumer, presented, item, field, now, reading)
  }

  /** The stored document and the two operations on it. */
  class Register {
    const crypto: Crypto
    var tokens: map<Hash, Token>
    var proofs: map<Hash, nat>
    var workloads: map<string, Newest>

    constructor (c: Crypto)
      ensures crypto == c && Stored() == EMPTY
    {
      crypto := c;
      tokens, proofs, workloads := map[], map[], map[];
    }

    function Stored(): State
      reads this
    {
      State(tokens, proofs, workloads)
    }

    method Save(s: State)
      modifies this
      ensures Stored() == s
    {
      tokens, proofs, workloads := s.tokens, s.proofs, s.workloads;
    }

    method Issue(ask: Ask, found: Found) returns (answer: Answer)
      modifies this
      ensures (Stored(), answer) == IssueStep(crypto, old(Stored()), ask, found)
    {
      if !WellFormed(ask) {
        return Denied;
      }
      if found.grant.None? || ask.timestamp > found.now {
        return Denied;
      }
      var lent := found.grant.value;
      var verdict := crypto.verify(lent.publicKey, Payload(ask), ask.signature);
      if verdict.NotAKey? {
        return Failed(BadKey);
      }
      if verdict.Refuted? {
        return Denied;
      }
      if !found.target.Present? {
        return Failed(if found.target.FieldMissing? then Missing else Vault);
      }
      var state := Purged(Stored(), found.now);
      if ask.workload in state.workloads && ask.timestamp < state.workloads[ask.workload].timestamp {
        return Denied;
      }
      var proof := crypto.hash(ProofKey(ask.workload, ask.nonce));
      if proof in state.proofs {
        return Denied;
      }
      state := state.(proofs := state.proofs[proof := lent.expiresAt]);
      state := state.(workloads := state.workloads[ask.workload := Newest(ask.timestamp, lent.expiresAt)]);
      var hash := crypto.hash(found.token);
      if hash in state.tokens {
        return Failed(Collision);
      }
      var record := Token(ask.consumer, ask.item, ask.field, lent.expiresAt, ask.workload);
      state := state.(tokens := state.tokens[hash := record]);
      Save(state);
      answer := Issued(found.token, lent.expiresAt);
    }

    method Consume(consumer: string, presented: string, item: string, field: string, now: nat, reading: Reading)
        returns (answer: Answer)
      modifies this
      ensures (Stored(), answer) == ConsumeStep(crypto, old(Stored()), consumer, presented, item, field, now, reading)
    {
      if !Coordinates(consumer, item, field) || presented == "" {
        return Denied;
      }
      var hash := crypto.hash(presented);
      if hash !in tokens {
        return Denied;
      }
      var record := tokens[hash];
      if record.expiresAt <= now {
        tokens := tokens - {hash};
        return Denied;
      }
      if record.consumer != consumer || record.item != item || record.field != field {
        return Denied;
      }
      match reading
      case Withheld => answer := Denied;
      case Broken => answer := Failed(Vault);
      case Available(value) =>
        tokens := tokens - {hash};
        answer := Read(value);
    }
  }

  // ---- runs ---------------------------------------------------------------------------------

  /** The state after the first n events of a run from the empty state. */
  function After(c: Crypto, run: seq<Event>, n: nat): State
    requires n <= |run|
  {
    if n == 0 then EMPTY else Step(c, After(c, run, n - 1), run[n - 1]).0
  }

  function AnswerAt(c: Crypto, run: seq<Event>, n: nat): Answer
    requires n < |run|
  {
    Step(c, After(c, run, n), run[n]).1
  }

  /** Event n issued a token with this hash. */
  ghost predicate IssuesHash(c: Crypto, run: seq<Event>, n: nat, h: Hash)
  {
    n < |run| && AnswerAt(c, run, n).Issued? && c.hash(AnswerAt(c, run, n).token) == h
  }

  /** Event n handed over a value for a token with this hash. */
  ghost predicate ReadsHash(c: Crypto, run: seq<Event>, n: nat, h: Hash)
  {
    n < |run| && AnswerAt(c, run, n).Read? && run[n].Consume? && c.hash(run[n].presented) == h
  }

  ghost function Reads(c: Crypto, run: seq<Event>, n: nat, h: Hash): nat
    requires n <= |run|
  {
    if n == 0 then 0 else Reads(c, run, n - 1, h) + if ReadsHash(c, run, n - 1, h) then 1 else 0
  }

  ghost function Issues(c: Crypto, run: seq<Event>, n: nat, h: Hash): nat
    requires n <= |run|
  {
    if n == 0 then 0 else Issues(c, run, n - 1, h) + if IssuesHash(c, run, n - 1, h) then 1 else 0
  }

  /** A refused or failed read leaves the stored document as it was, unless it found the
      bearer expired; so a bearer still in date stays unspent until it is read. */
  lemma RefusalSpendsNothing(c: Crypto, s: State, e: Event)
    requires e.Consume? && !Step(c, s, e).1.Read?
    ensures var h := c.hash(e.presented);
            || Step(c, s, e).0 == s
            || (h in s.tokens && s.tokens[h].expiresAt <= e.now && Step(c, s, e).0 == s.(tokens := s.tokens - {h}))
  {
  }

  /** A token is redeemed at most as often as it was issued: each issue pays for one read. */
  lemma {:induction false} RedeemedOncePerIssue(c: Crypto, run: seq<Event>, n: nat, h: Hash)
    requires n <= |run|
    ensures Reads(c, run, n, h) + (if h in After(c, run, n).tokens then 1 else 0) <= Issues(c, run, n, h)
  {
    if n > 0 {
      RedeemedOncePerIssue(c, run, n - 1, h);
    }
  }

  /** Event m handed over what event l issued: same hash, neither issued nor read in between. */
  ghost predicate Redeems(c: Crypto, run: seq<Event>, l: nat, m: nat)
  {
    && l < m < |run| && run[l].Issue? && run[m].Consume?
    && IssuesHash(c, run, l, c.hash(run[m].presented)) && AnswerAt(c, run, m).Read?
    && Untouched(c, run, l + 1, m, c.hash(run[m].presented))
  }

  ghost predicate Untouched(c: Crypto, run: seq<Event>, i: nat, m: nat, h: Hash)
  {
    forall j :: i <= j < m ==> !IssuesHash(c, run, j, h) && !ReadsHash(c, run, j, h)
  }

  /** The request at l was proved by its workload and is what the token says. */
  ghost predicate Backs(c: Crypto, e: Event, t: Token)
  {
    && e.Issue? && e.found.grant.Some?
    && WellFormed(e.ask) && e.ask.timestamp <= e.found.now && e.found.target == Present
    && c.verify(e.found.grant.value.publicKey, Payload(e.ask), e.ask.signature) == Verified
    && t == Token(e.ask.consumer, e.ask.item, e.ask.field, e.found.grant.value.expiresAt, e.ask.workload)
  }

  ghost predicate Source(c: Crypto, run: seq<Event>, l: nat, n: nat, h: Hash, t: Token)
  {
    l < n <= |run| && IssuesHash(c, run, l, h) && Backs(c, run[l], t) && Untouched(c, run, l + 1, n, h)
  }

  /** Every token held was issued, and neither issued again nor read since. */
  lemma {:induction false} TokenHasSource(c: Crypto, run: seq<Event>, n: nat, h: Hash) returns (l: nat)
    requires n <= |run| && h in After(c, run, n).tokens
    ensures Source(c, run, l, n, h, After(c, run, n).tokens[h])
  {
    var s := After(c, run, n - 1);
    if IssuesHash(c, run, n - 1, h) {
      l := n - 1;
    } else {
      KeptTokenWasThere(c, s, run[n - 1], h);
      l := TokenHasSource(c, run, n - 1, h);
      StillUntouched(c, run, l + 1, n, h);
    }
  }

  lemma StillUntouched(c: Crypto, run: seq<Event>, i: nat, n: nat, h: Hash)
    requires i < n && Untouched(c, run, i, n - 1, h) && !IssuesHash(c, run, n - 1, h) && !ReadsHash(c, run, n - 1, h)
    ensures Untouched(c, run, i, n, h)
  {
  }

  lemma KeptTokenWasThere(c: Crypto, s: State, e: Event, h: Hash)
    requires h in Step(c, s, e).0.tokens && !(Step(c, s, e).1.Issued? && c.hash(Step(c, s, e).1.token) == h)
    ensures h in s.tokens && Step(c, s, e).0.tokens[h] == s.tokens[h]
    ensures !(e.Consume? && Step(c, s, e).1.Read? && c.hash(e.presented) == h)
  {
  }

  /** Every value handed over redeems one earlier issue, for the consumer, item and field
      its workload signed, before the expiry of the grant it was issued under. */
  lemma ReadWasIssued(c: Crypto, run: seq<Event>, m: nat) returns (l: nat)
    requires m < |run| && AnswerAt(c, run, m).Read?
    ensures Redeems(c, run, l, m)
    ensures run[m].now < run[l].found.grant.value.expiresAt
    ensures Backs(c, run[l], Token(run[m].consumer, run[m].item, run[m].field, run[l].found.grant.value.expiresAt,
                                   run[l].ask.workload))
  {
    var h := c.hash(run[m].presented);
    l := TokenHasSource(c, run, m, h);
  }

  // ---- what is remembered of a grant ------------------------------------------------------------

  /** Event i was an issue that was granted. */
  ghost predicate Granted(c: Crypto, run: seq<Event>, i: nat)
  {
    i < |run| && run[i].Issue? && AnswerAt(c, run, i).Issued?
  }

  function ExpiryOf(e: Event): nat
    requires e.Issue?
  {
    if e.found.grant.Some? then e.found.grant.value.expiresAt else 0
  }

  /** An issue is granted when its screening lets it through, neither its nonce nor a later
      timestamp of its workload is on record, and its token is new. */
  lemma GrantedIff(c: Crypto, s: State, ask: Ask, found: Found)
    ensures var live := Purged(s, found.now);
      && (IssueStep(c, s, ask, found).1.Issued? <==>
            Screen(c, ask, found).None? && !Replayed(c, live, ask) && c.hash(found.token) !in live.tokens)
      && (IssueStep(c, s, ask, found).1.Issued? ==> found.grant.Some?)
      && (IssueStep(c, s, ask, found).1.Issued? ==>
            IssueStep(c, s, ask, found).0 == Recorded(c, live, ask, found.token, found.grant.value.expiresAt))
      && (!IssueStep(c, s, ask, found).1.Issued? ==> IssueStep(c, s, ask, found).0 == s)
  {
  }

  /** A grant after i and before n read a clock at or past the expiry of grant i, so its
      purge, which is stored, forgot what grant i left on record. */
  ghost predicate Passed(c: Crypto, run: seq<Event>, i: nat, n: nat)
    requires i < |run| && run[i].Issue?
  {
    exists k :: i < k < n && PassedAt(c, run, k, ExpiryOf(run[i]))
  }

  ghost predicate PassedAt(c: Crypto, run: seq<Event>, k: nat, expiresAt: nat)
  {
    Granted(c, run, k) && expiresAt <= run[k].found.now
  }

  lemma OneMore(at: nat -> bool, i: nat, n: nat)
    requires i < n
    ensures (exists k: nat :: i < k < n + 1 && at(k)) <==> at(n) || exists k: nat :: i < k < n && at(k)
  {
  }

  lemma PassedNext(c: Crypto, run: seq<Event>, i: nat, n: nat)
    requires i < n && i < |run| && run[i].Issue?
    ensures Passed(c, run, i, n + 1) <==> Passed(c, run, i, n) || PassedAt(c, run, n, ExpiryOf(run[i]))
  {
    var at := (k: nat) => PassedAt(c, run, k, ExpiryOf(run[i]));
    OneMore(at, i, n);
    assert forall k: nat :: at(k) <==> PassedAt(c, run, k, ExpiryOf(run[i]));
  }

  /** The nonces on record after one event. */
  lemma ProofsStep(c: Crypto, s: State, e: Event, p: Hash)
    ensures var (next, answer) := Step(c, s, e);
      if e.Issue? && answer.Issued? then
        && (p in next.proofs <==> p == ProofHash(c, e.ask) || (p in s.proofs && s.proofs[p] > e.found.now))
        && (p in next.proofs ==> next.proofs[p] == if p == ProofHash(c, e.ask) then ExpiryOf(e) else s.proofs[p])
      else next.proofs == s.proofs
  {
    if e.Issue? { GrantedIff(c, s, e.ask, e.found); }
  }

  /** The newest timestamps on record after one event. */
  lemma NewestStep(c: Crypto, s: State, e: Event, w: string)
    ensures var (next, answer) := Step(c, s, e);
      if e.Issue? && answer.Issued? then
        && (w in next.workloads <==> w == e.ask.workload || (w in s.workloads && s.workloads[w].expiresAt > e.found.now))
        && (w in next.workloads ==>
              next.workloads[w] == if w == e.ask.workload then Newest(e.ask.timestamp, ExpiryOf(e)) else s.workloads[w])
      else next.workloads == s.workloads
  {
    if e.Issue? { GrantedIff(c, s, e.ask, e.found); }
  }

  /** A spent nonce stays on record until a later grant reads a clock at or past its expiry. */
  lemma {:induction false} ProofKept(c: Crypto, run: seq<Event>, i: nat, n: nat)
    requires Granted(c, run, i) && i < n <= |run| && !Passed(c, run, i, n)
    ensures var p := ProofHash(c, run[i].ask);
      p in After(c, run, n).proofs && After(c, run, n).proofs[p] == ExpiryOf(run[i])
  {
    var s, p := After(c, run, n - 1), ProofHash(c, run[i].ask);
    ProofsStep(c, s, run[n - 1], p);
    if i < n - 1 {
      PassedNext(c, run, i, n - 1);
      ProofKept(c, run, i, n - 1);
      if Granted(c, run, n - 1) { NotOnRecord(c, s, run[n - 1]); }
    }
  }

  /** A grant finds its nonce not on record. */
  lemma NotOnRecord(c: Crypto, s: State, e: Event)
    requires e.Issue? && Step(c, s, e).1.Issued?
    ensures var p := ProofHash(c, e.ask); p in s.proofs ==> s.proofs[p] <= e.found.now
  {
    GrantedIff(c, s, e.ask, e.found);
    assert ProofHash(c, e.ask) !in Purged(s, e.found.now).proofs;
  }

  /** Every nonce on record was left by a grant that none passed since. */
  lemma {:induction false} ProofHasGrant(c: Crypto, run: seq<Event>, n: nat, p: Hash) returns (i: nat)
    requires n <= |run| && p in After(c, run, n).proofs
    ensures i < n && Granted(c, run, i) && ProofHash(c, run[i].ask) == p
    ensures !Passed(c, run, i, n) && After(c, run, n).proofs[p] == ExpiryOf(run[i])
  {
    var e := run[n - 1];
    ProofsStep(c, After(c, run, n - 1), e, p);
    if GrantsProof(c, run, n - 1, p) {
      i := n - 1;
    } else {
      i := ProofHasGrant(c, run, n - 1, p);
      PassedNext(c, run, i, n - 1);
    }
  }

  ghost predicate OnRecord(c: Crypto, run: seq<Event>, i: nat, n: nat, p: Hash)
  {
    i < n <= |run| && Granted(c, run, i) && ProofHash(c, run[i].ask) == p && !Passed(c, run, i, n)
  }

  /** A nonce is on record exactly when some grant left it there and none passed it since. */
  lemma ProofOnRecordExactly(c: Crypto, run: seq<Event>, n: nat, p: Hash)
    requires n <= |run|
    ensures p in After(c, run, n).proofs <==> exists i :: OnRecord(c, run, i, n, p)
  {
    if p in After(c, run, n).proofs {
      var i := ProofHasGrant(c, run, n, p);
      assert OnRecord(c, run, i, n, p);
    }
    if exists i :: OnRecord(c, run, i, n, p) {
      var i :| OnRecord(c, run, i, n, p);
      ProofKept(c, run, i, n);
    }
  }

  // ---- exactly when a nonce is granted again -----------------------------------------------------

  ghost predicate GrantsProof(c: Crypto, run: seq<Event>, k: nat, p: Hash)
  {
    Granted(c, run, k) && ProofHash(c, run[k].ask) == p
  }

  /** Issue j comes too late for what grant i left on record: it reads a clock at or past its
      expiry itself, or a grant between them did. */
  ghost predicate Forgotten(c: Crypto, run: seq<Event>, i: nat, j: nat)
    requires i < |run| && run[i].Issue? && j < |run| && run[j].Issue?
  {
    ExpiryOf(run[i]) <= run[j].found.now || Passed(c, run, i, j)
  }

  /** The nonce of the last grant of it is live at an issue exactly when it is not forgotten. */
  lemma ProofLiveExactly(c: Crypto, run: seq<Event>, i: nat, j: nat)
    requires Granted(c, run, i) && i < j < |run| && run[j].Issue?
    requires forall k :: i < k < j ==> !GrantsProof(c, run, k, ProofHash(c, run[i].ask))
    ensures ProofHash(c, run[i].ask) in Purged(After(c, run, j), run[j].found.now).proofs <==> !Forgotten(c, run, i, j)
  {
    var p := ProofHash(c, run[i].ask);
    if !Passed(c, run, i, j) {
      ProofKept(c, run, i, j);
    } else if p in After(c, run, j).proofs {
      var o := ProofHasGrant(c, run, j, p);
      LastOne(c, run, i, j, o, p);
    }
  }

  /** A grant left on record is the last one of its nonce. */
  lemma LastOne(c: Crypto, run: seq<Event>, i: nat, j: nat, o: nat, p: Hash)
    requires GrantsProof(c, run, i, p) && i < j <= |run| && OnRecord(c, run, o, j, p)
    requires forall k :: i < k < j ==> !GrantsProof(c, run, k, p)
    ensures o == i
  {
    assert GrantsProof(c, run, o, p);
    if o < i {
      assert !PassedAt(c, run, i, ExpiryOf(run[o]));
      forall k | o < k < i ensures !PassedAt(c, run, k, ExpiryOf(run[o])) {
      }
      ProofKept(c, run, o, i);
      NotOnRecord(c, After(c, run, i), run[i]);
    }
  }

  /** A later timestamp of the workload is live at an issue. */
  predicate Overtaken(s: State, ask: Ask)
  {
    ask.workload in s.workloads && ask.timestamp < s.workloads[ask.workload].timestamp
  }

  /** Exactly when a nonce is granted again after its last grant: its expiry was reached by
      the clock of this issue or of a grant in between, and nothing else refuses it. */
  lemma GrantedAgainExactly(c: Crypto, run: seq<Event>, i: nat, j: nat)
    requires Granted(c, run, i) && i < j < |run| && run[j].Issue?
    requires ProofHash(c, run[i].ask) == ProofHash(c, run[j].ask)
    requires forall k :: i < k < j ==> !GrantsProof(c, run, k, ProofHash(c, run[i].ask))
    ensures var live := Purged(After(c, run, j), run[j].found.now);
      Granted(c, run, j) <==>
        && Forgotten(c, run, i, j)
        && Screen(c, run[j].ask, run[j].found).None? && !Overtaken(live, run[j].ask) && c.hash(run[j].found.token) !in live.tokens
  {
    ProofLiveExactly(c, run, i, j);
    GrantedIff(c, After(c, run, j), run[j].ask, run[j].found);
  }

  /** So any nonce that was granted twice had been forgotten in between. */
  lemma GrantedTwice(c: Crypto, run: seq<Event>, i: nat, j: nat)
    requires Granted(c, run, i) && Granted(c, run, j) && i < j
    requires ProofHash(c, run[i].ask) == ProofHash(c, run[j].ask)
    ensures Forgotten(c, run, i, j)
  {
    if !Passed(c, run, i, j) {
      ProofKept(c, run, i, j);
      NotOnRecord(c, After(c, run, j), run[j]);
    }
  }

  // ---- one nonce, one read --------------------------------------------------------------------

  /** The clock a consume reads, under the lock, is at or past every clock read by an event
      before it.  An issue reads its clock before it takes the lock, so nothing is said
      about that one. */
  ghost predicate HonestClocks(run: seq<Event>)
  {
    forall k, m :: 0 <= k < m < |run| && run[m].Consume? ==> ClockOf(run[k]) <= run[m].now
  }

  function ClockOf(e: Event): nat
  {
    match e
    case Issue(_, found) => found.now
    case Consume(_, _, _, _, now, _) => now
  }

  /** Nothing that a grant left on record is forgotten before its token is read. */
  lemma ReadIsInDate(c: Crypto, run: seq<Event>, i: nat, l: nat, m: nat)
    requires HonestClocks(run) && Redeems(c, run, l, m) && i < |run| && run[i].Issue? && ExpiryOf(run[i]) == ExpiryOf(run[l])
    ensures !Forgotten(c, run, i, l)
  {
    var at := ReadWasIssued(c, run, m);
    SameIssue(c, run, l, at, m);
    forall k | i < k <= l ensures ExpiryOf(run[l]) > ClockOf(run[k]) {
      assert ClockOf(run[k]) <= run[m].now;
    }
    assert ClockOf(run[l]) <= run[m].now;
  }

  lemma SameIssue(c: Crypto, run: seq<Event>, l: nat, at: nat, m: nat)
    requires Redeems(c, run, l, m) && Redeems(c, run, at, m)
    ensures l == at
  {
    var h := c.hash(run[m].presented);
    assert l < at ==> !IssuesHash(c, run, at, h);
    assert at < l ==> !IssuesHash(c, run, l, h);
  }

  /** One issue is redeemed by one read. */
  lemma SameRead(c: Crypto, run: seq<Event>, l: nat, m: nat, other: nat)
    requires Redeems(c, run, l, m) && Redeems(c, run, l, other)
    ensures m == other
  {
    var h := c.hash(run[m].presented);
    assert m < other ==> !ReadsHash(c, run, m, h);
    assert other < m ==> !ReadsHash(c, run, other, h);
  }

  /** Under grants with one expiry, a workload's nonce is good for one read: two reads that
      redeem the same workload and nonce are one read of one issue. */
  lemma NonceReadOnce(c: Crypto, run: seq<Event>, l: nat, m: nat, l': nat, m': nat)
    requires HonestClocks(run) && Redeems(c, run, l, m) && Redeems(c, run, l', m')
    requires run[l].ask.workload == run[l'].ask.workload && run[l].ask.nonce == run[l'].ask.nonce
    requires ExpiryOf(run[l]) == ExpiryOf(run[l'])
    ensures l == l' && m == m'
  {
    if l < l' {
      GrantedTwice(c, run, l, l');
      ReadIsInDate(c, run, l, l', m');
    } else if l' < l {
      GrantedTwice(c, run, l', l);
      ReadIsInDate(c, run, l', l, m);
    } else {
      SameRead(c, run, l, m, m');
    }
  }

  // ---- timestamps -----------------------------------------------------------------------------

  ghost predicate GrantsTo(c: Crypto, run: seq<Event>, k: nat, w: string)
  {
    Granted(c, run, k) && run[k].ask.workload == w
  }

  /** No grant to the workload after i and before n. */
  ghost predicate NoneTo(c: Crypto, run: seq<Event>, i: nat, n: nat, w: string)
  {
    forall k: nat :: i < k < n ==> !GrantsTo(c, run, k, w)
  }

  /** The newest timestamp of a workload is that of its last grant, until one passes it. */
  lemma {:induction false} NewestKept(c: Crypto, run: seq<Event>, i: nat, n: nat)
    requires Granted(c, run, i) && i < n <= |run|
    requires NoneTo(c, run, i, n, run[i].ask.workload)
    ensures var w := run[i].ask.workload;
      && (w in After(c, run, n).workloads <==> !Passed(c, run, i, n))
      && (w in After(c, run, n).workloads ==> After(c, run, n).workloads[w] == Newest(run[i].ask.timestamp, ExpiryOf(run[i])))
  {
    NewestStep(c, After(c, run, n - 1), run[n - 1], run[i].ask.workload);
    if i < n - 1 {
      PassedNext(c, run, i, n - 1);
      NewestKept(c, run, i, n - 1);
      assert !GrantsTo(c, run, n - 1, run[i].ask.workload);
    }
  }

  /** Exactly when a workload is granted a token after its last one: its timestamp has not
      gone back, or the last grant is forgotten; and nothing else refuses it. */
  lemma TimestampGrantedExactly(c: Crypto, run: seq<Event>, i: nat, j: nat)
    requires Granted(c, run, i) && i < j < |run| && run[j].Issue? && run[j].ask.workload == run[i].ask.workload
    requires NoneTo(c, run, i, j, run[i].ask.workload)
    ensures var live := Purged(After(c, run, j), run[j].found.now);
      Granted(c, run, j) <==>
        && (run[i].ask.timestamp <= run[j].ask.timestamp || Forgotten(c, run, i, j))
        && Screen(c, run[j].ask, run[j].found).None? && ProofHash(c, run[j].ask) !in live.proofs
        && c.hash(run[j].found.token) !in live.tokens
  {
    NewestKept(c, run, i, j);
    GrantedIff(c, After(c, run, j), run[j].ask, run[j].found);
  }

  /** Every grant to this workload from i on has the same expiry. */
  ghost predicate OneExpiry(c: Crypto, run: seq<Event>, i: nat, w: string, expiresAt: nat)
  {
    forall k :: i <= k < |run| && GrantsTo(c, run, k, w) ==> ExpiryOf(run[k]) == expiresAt
  }

  /** The last place before j, from i on. */
  lemma {:induction false} LastBefore(at: nat -> bool, i: nat, j: nat) returns (l: nat)
    requires at(i) && i < j
    ensures i <= l < j && at(l) && forall k: nat :: l < k < j ==> !at(k)
    decreases j
  {
    if at(j - 1) {
      l := j - 1;
    } else {
      l := LastBefore(at, i, j - 1);
    }
  }

  lemma LastGrantTo(c: Crypto, run: seq<Event>, i: nat, j: nat, w: string) returns (l: nat)
    requires GrantsTo(c, run, i, w) && i < j <= |run|
    ensures i <= l < j && GrantsTo(c, run, l, w) && NoneTo(c, run, l, j, w)
  {
    var at := (k: nat) => GrantsTo(c, run, k, w);
    l := LastBefore(at, i, j);
    forall k: nat | l < k < j ensures !GrantsTo(c, run, k, w) { assert !at(k); }
  }

  /** Under grants with one expiry, a workload's granted timestamps never decrease until
      that expiry is reached. */
  lemma {:induction false} TimestampsAscend(c: Crypto, run: seq<Event>, i: nat, j: nat)
    requires Granted(c, run, i) && Granted(c, run, j) && i < j
    requires run[i].ask.workload == run[j].ask.workload
    requires OneExpiry(c, run, i, run[i].ask.workload, ExpiryOf(run[i]))
    ensures run[i].ask.timestamp <= run[j].ask.timestamp || Forgotten(c, run, i, j)
    decreases j
  {
    var l := LastGrantTo(c, run, i, j, run[i].ask.workload);
    TimestampGrantedExactly(c, run, l, j);
    if i < l && !Forgotten(c, run, i, j) {
      NotForgotten(c, run, i, l, j);
      TimestampsAscend(c, run, i, l);
    }
  }

  /** What is not forgotten at j was not forgotten at a grant before, nor is what that
      grant left with the same expiry. */
  lemma NotForgotten(c: Crypto, run: seq<Event>, i: nat, l: nat, j: nat)
    requires Granted(c, run, i) && Granted(c, run, l) && i < l < j < |run| && run[j].Issue?
    requires ExpiryOf(run[l]) == ExpiryOf(run[i]) && !Forgotten(c, run, i, j)
    ensures !Forgotten(c, run, i, l) && !Forgotten(c, run, l, j)
  {
    assert !PassedAt(c, run, l, ExpiryOf(run[i]));
  }

  /** So the timestamps of the tokens a workload reads with never decrease in the order of issue. */
  lemma ReadTimestampsAscend(c: Crypto, run: seq<Event>, l: nat, m: nat, l': nat, m': nat)
    requires HonestClocks(run) && Redeems(c, run, l, m) && Redeems(c, run, l', m') && l < l'
    requires run[l].ask.workload == run[l'].ask.workload
    requires OneExpiry(c, run, l, run[l].ask.workload, ExpiryOf(run[l]))
    ensures run[l].ask.timestamp <= run[l'].ask.timestamp
  {
    assert GrantsTo(c, run, l', run[l].ask.workload);
    TimestampsAscend(c, run, l, l');
    ReadIsInDate(c, run, l, l', m');
  }

  // ---- the clock is read before the lock -----------------------------------------------------------

  lemma FirstTwo(c: Crypto, run: seq<Event>, a: Ask, first: Found, b: Ask, between: Found)
    requires |run| >= 2 && run[0] == Issue(a, first) && run[1] == Issue(b, between)
    requires Screen(c, a, first).None? && Screen(c, b, between).None?
    requires first.now < first.grant.value.expiresAt <= between.now
    ensures Granted(c, run, 0) && Granted(c, run, 1)
    ensures After(c, run, 2) == Recorded(c, EMPTY, b, between.token, between.grant.value.expiresAt)
  {
    assert Purged(EMPTY, first.now) == EMPTY;
    GrantedIff(c, EMPTY, a, first);
    var s1 := Recorded(c, EMPTY, a, first.token, first.grant.value.expiresAt);
    assert After(c, run, 1) == s1;
    assert Purged(s1, between.now) == EMPTY;
    GrantedIff(c, s1, b, between);
  }

  /** An issue reads its clock before it waits for the lock, so a nonce can be granted again
      although its own clock is before the expiry: when another grant at or past the expiry
      runs between two copies of one request, both copies are granted. */
  lemma GrantedAgainWhenLate(c: Crypto, a: Ask, first: Found, b: Ask, between: Found, late: Found)
    requires Screen(c, a, first).None? && Screen(c, b, between).None? && Screen(c, a, late).None?
    requires a.workload != b.workload && ProofHash(c, a) != ProofHash(c, b)
    requires c.hash(late.token) != c.hash(between.token)
    requires first.now < first.grant.value.expiresAt <= between.now < between.grant.value.expiresAt
    requires late.now < first.grant.value.expiresAt
    ensures var run := [Issue(a, first), Issue(b, between), Issue(a, late)];
            Granted(c, run, 0) && Granted(c, run, 1) && Granted(c, run, 2)
  {
    var run := [Issue(a, first), Issue(b, between), Issue(a, late)];
    FirstTwo(c, run, a, first, b, between);
    GrantedIff(c, After(c, run, 2), a, late);
  }

  /** Such copies exist: granted at 50 under an expiry of 100, and again when screened at 99
      but behind an issue at 100. */
  lemma LateAtTheLock(c: Crypto, k: string)
    requires c == Crypto(s => s, (key, payload, signature) => Verified) && ValidNonce(k)
    ensures var a, b := Ask("a", "i", "f", "a", 50, k, ""), Ask("b", "i", "f", "b", 60, k, "");
            var run := [Issue(a, Found(Some(Grant("", 100)), 50, Present, "x")),
                        Issue(b, Found(Some(Grant("", 200)), 100, Present, "y")),
                        Issue(a, Found(Some(Grant("", 100)), 99, Present, "z"))];
            Granted(c, run, 0) && Granted(c, run, 2)
  {
    var a, b := Ask("a", "i", "f", "a", 50, k, ""), Ask("b", "i", "f", "b", 60, k, "");
    assert WellFormed(a) && WellFormed(b);
    assert ProofKey("a", k)[0] != ProofKey("b", k)[0];
    GrantedAgainWhenLate(c, a, Found(Some(Grant("", 100)), 50, Present, "x"),
                         b, Found(Some(Grant("", 200)), 100, Present, "y"),
                         Found(Some(Grant("", 100)), 99, Present, "z"));
  }
}
