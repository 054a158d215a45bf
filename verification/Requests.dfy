/** The access-request register (request/mod.rs, request/file.rs, request/decide.rs): an agent
    asks, owners and admins decide, and the grant is issued within the narrowest bounds stated.

    Every operation runs under the register lock, so a run is a sequence of events, among
    them what others do to the vault's standing grants.  The vault's recipients and tags,
    the keys on the host, new ids, what the vault does when it is asked for a grant and
    whether the register can be written are parameters of the events. */
module Requests {
  import opened Options

  // ---- bounds -----------------------------------------------------------------------------

  datatype Lifetime = Seconds(n: nat) | UntilRevoked

  /** What a decider states: how long a grant lives and how often it is used. */
  datatype Bounds = Bounds(lifetime: Lifetime, uses: Option<nat>)

  function Narrower(a: Lifetime, b: Lifetime): Lifetime
  {
    match (a, b)
    case (Seconds(x), Seconds(y)) => Seconds(if x < y then x else y)
    case (Seconds(x), UntilRevoked) => Seconds(x)
    case (UntilRevoked, Seconds(y)) => Seconds(y)
    case (UntilRevoked, UntilRevoked) => UntilRevoked
  }

  /** A grant with lifetime a never outlives one with lifetime b. */
  predicate Within(a: Lifetime, b: Lifetime)
  {
    b.UntilRevoked? || (a.Seconds? && a.n <= b.n)
  }

  predicate UsesWithin(a: Option<nat>, b: Option<nat>)
  {
    b.None? || (a.Some? && a.value <= b.value)
  }

  /** Every approval's lifetime, reduced. */
  function Reduced(stated: seq<Bounds>): (l: Lifetime)
    requires stated != []
  {
    if |stated| == 1 then stated[0].lifetime else Narrower(Reduced(stated[..|stated| - 1]), stated[|stated| - 1].lifetime)
  }

  /** The fewest uses stated, if any are. */
  function Fewest(stated: seq<Bounds>): (u: Option<nat>)
  {
    if stated == [] then None
    else
      var rest, last := Fewest(stated[..|stated| - 1]), stated[|stated| - 1].uses;
      if last.None? then rest
      else if rest.None? || last.value < rest.value then last
      else rest
  }

  /** The widest bounds within all the stated ones: within each, and each half is stated. */
  ghost predicate Narrowest(b: Bounds, stated: seq<Bounds>)
  {
    && (forall i :: 0 <= i < |stated| ==> Within(b.lifetime, stated[i].lifetime) && UsesWithin(b.uses, stated[i].uses))
    && (exists i :: 0 <= i < |stated| && stated[i].lifetime == b.lifetime)
    && (b.uses.Some? ==> exists i :: 0 <= i < |stated| && stated[i].uses == b.uses)
  }

  lemma {:induction false} ReducedIsNarrowest(stated: seq<Bounds>)
    requires stated != []
    ensures Narrowest(Bounds(Reduced(stated), Fewest(stated)), stated)
  {
    var n := |stated| - 1;
    if n == 0 {
      assert Fewest(stated[..0]) == None;
      assert stated[0].lifetime == Reduced(stated) && stated[0].uses == Fewest(stated);
    } else {
      var front := stated[..n];
      ReducedIsNarrowest(front);
      var i :| 0 <= i < |front| && front[i].lifetime == Reduced(front);
      assert stated[i].lifetime == Reduced(front);
      if Fewest(front).Some? {
        var j :| 0 <= j < |front| && front[j].uses == Fewest(front);
        assert stated[j].uses == Fewest(front);
      }
      forall k | 0 <= k < |stated|
        ensures Within(Reduced(stated), stated[k].lifetime) && UsesWithin(Fewest(stated), stated[k].uses)
      {
        if k < n { assert stated[k] == front[k]; }
      }
    }
  }

  /** So the bounds are fixed by what was stated, whatever the order. */
  lemma NarrowestIsOne(a: Bounds, b: Bounds, stated: seq<Bounds>)
    requires Narrowest(a, stated) && Narrowest(b, stated)
    ensures a == b
  {
    var i :| 0 <= i < |stated| && stated[i].lifetime == a.lifetime;
    var j :| 0 <= j < |stated| && stated[j].lifetime == b.lifetime;
    assert Within(a.lifetime, stated[j].lifetime) && Within(b.lifetime, stated[i].lifetime);
    if a.uses.Some? {
      var k :| 0 <= k < |stated| && stated[k].uses == a.uses;
      assert UsesWithin(b.uses, stated[k].uses);
    }
    if b.uses.Some? {
      var k :| 0 <= k < |stated| && stated[k].uses == b.uses;
      assert UsesWithin(a.uses, stated[k].uses);
    }
  }

  // ---- the register -------------------------------------------------------------------------

  datatype Kind = Secret | Device | Membership

  datatype Grant =
    | Capability(purpose: string, target: string, ttl: nat, maxUses: nat, depth: Option<nat>)
    | Consumer(consumer: string)
    | Record

  datatype Status = Pending | Approved | Denied | Withdrawn

  /** A decision: an approval states its bounds. */
  datatype Decision = Approve(who: string, bounds: Bounds) | Deny(who: string, reason: Option<string>) | Withdraw(who: string)

  datatype Request = Request(
    id: string, agent: string, kind: Kind, resource: string, action: string, reason: string, decider: string,
    dualControl: bool, grant: Grant, via: string, status: Status, decisions: seq<Decision>, issued: Option<Bounds>)

  type Doc = seq<Request>

  function Approvals(decisions: seq<Decision>): seq<Decision>
  {
    if decisions == [] then []
    else
      var rest, last := Approvals(decisions[..|decisions| - 1]), decisions[|decisions| - 1];
      if last.Approve? then rest + [last] else rest
  }

  lemma {:induction false} ApprovalsApprove(decisions: seq<Decision>)
    ensures forall i :: 0 <= i < |Approvals(decisions)| ==> Approvals(decisions)[i].Approve?
  {
    if decisions != [] {
      ApprovalsApprove(decisions[..|decisions| - 1]);
    }
  }

  lemma ApprovalsNext(decisions: seq<Decision>, d: Decision)
    ensures Approvals(decisions + [d]) == if d.Approve? then Approvals(decisions) + [d] else Approvals(decisions)
  {
    assert (decisions + [d])[..|decisions|] == decisions;
  }

  function Stated(approvals: seq<Decision>): (b: seq<Bounds>)
    requires forall i :: 0 <= i < |approvals| ==> approvals[i].Approve?
  {
    seq(|approvals|, i requires 0 <= i < |approvals| => approvals[i].bounds)
  }

  function StatedBounds(r: Request): seq<Bounds>
  {
    ApprovalsApprove(r.decisions);
    Stated(Approvals(r.decisions))
  }

  /** How many approvals grant a request. */
  function Quorum(r: Request): nat
  {
    if r.dualControl then 2 else 1
  }

  // ---- who decides ------------------------------------------------------------------------------

  datatype Recipient = Recipient(role: string, fingerprint: Option<string>)
  datatype Host = Host(recipients: map<string, Recipient>, keys: set<string>)

  datatype Error =
    | NotFound | NotPending | NotARecipient | NotOwnerOrAdmin | NotNamed | NoFingerprint | NoKey | AlreadyDecided
    | UsesRequired | MustExpire | UsesNotCounted | NoUses | NotIssued | NotSaved

  predicate Decided(decisions: seq<Decision>, who: string)
  {
    exists i :: 0 <= i < |decisions| && decisions[i].who == who
  }

  function Authorize(r: Request, who: string, host: Host): Option<Error>
  {
    if r.status != Pending then Some(NotPending)
    else if who !in host.recipients then Some(NotARecipient)
    else
      var recipient := host.recipients[who];
      if recipient.role != "owner" && recipient.role != "admin" then Some(NotOwnerOrAdmin)
      else
        var named := if r.decider == "admin" then true
                     else if r.decider == "owner" then recipient.role == "owner"
                     else r.decider == who;
        if !named then Some(NotNamed)
        else if recipient.fingerprint.None? then Some(NoFingerprint)
        else if recipient.fingerprint.value !in host.keys then Some(NoKey)
        else if Decided(r.decisions, who) then Some(AlreadyDecided)
        else None
  }

  function UsesFor(grant: Grant, uses: Option<nat>, lifetime: Lifetime): Option<Error>
  {
    match grant
    case Capability(_, _, _, _, _) =>
      if uses.None? then Some(UsesRequired)
      else if lifetime.UntilRevoked? then Some(MustExpire)
      else if uses.value == 0 then Some(NoUses)
      else None
    case Consumer(_) => if uses.Some? then Some(UsesNotCounted) else None
    case Record => if uses == Some(0) then Some(NoUses) else None
  }

  /** Bounds a decider may state for a grant: a capability expires and is counted, a
      standing consumer grant is not counted, and no count is zero. */
  predicate Statable(grant: Grant, b: Bounds)
  {
    && (grant.Capability? ==> b.lifetime.Seconds? && b.uses.Some?)
    && (grant.Consumer? ==> b.uses.None?)
    && b.uses != Some(0)
  }

  lemma UsesForExactly(grant: Grant, b: Bounds)
    ensures UsesFor(grant, b.uses, b.lifetime).None? <==> Statable(grant, b)
  {
  }

  // ---- the three operations -----------------------------------------------------------------------

  datatype Filing = Filing(agent: string, kind: Kind, resource: string, action: string, reason: string, decider: string,
                           dualControl: bool, item: Option<string>, grant: Grant, via: string)

  datatype Answer =
    | Filed(request: Request) | Open(request: Request) | Taken(granted: bool, request: Request) | Closed(status: Status)
    | Failed(error: Error) | Elsewhere

  /** Everything that makes two requests the same question. */
  datatype Question = Question(agent: string, kind: Kind, resource: string, action: string, form: nat, purpose: string,
                               target: string, consumer: string)

  function Asks(agent: string, kind: Kind, resource: string, action: string, grant: Grant): Question
  {
    match grant
    case Capability(purpose, target, _, _, _) => Question(agent, kind, resource, action, 0, purpose, target, "")
    case Consumer(consumer) => Question(agent, kind, resource, action, 1, "", "", consumer)
    case Record => Question(agent, kind, resource, action, 2, "", "", "")
  }

  function QuestionOf(r: Request): Question
  {
    Asks(r.agent, r.kind, r.resource, r.action, r.grant)
  }

  function QuestionIn(f: Filing): Question
  {
    Asks(f.agent, f.kind, f.resource, f.action, f.grant)
  }

  predicate SameQuestion(r: Request, f: Filing)
  {
    r.status == Pending && QuestionOf(r) == QuestionIn(f)
  }

  /** The first open request with the same question, from i on. */
  function FirstOpen(doc: Doc, f: Filing, i: nat): (at: Option<nat>)
    requires i <= |doc|
    ensures at.Some? ==> at.value < |doc| && SameQuestion(doc[at.value], f)
    ensures at.None? ==> forall j :: i <= j < |doc| ==> !SameQuestion(doc[j], f)
    decreases |doc| - i
  {
    if i == |doc| then None else if SameQuestion(doc[i], f) then Some(i) else FirstOpen(doc, f, i + 1)
  }

  function Find(doc: Doc, id: string, i: nat): (at: Option<nat>)
    requires i <= |doc|
    ensures at.Some? ==> i <= at.value < |doc| && doc[at.value].id == id
    ensures at.Some? ==> forall j :: i <= j < at.value ==> doc[j].id != id
    ensures at.None? ==> forall j :: i <= j < |doc| ==> doc[j].id != id
    decreases |doc| - i
  {
    if i == |doc| then None else if doc[i].id == id then Some(i) else Find(doc, id, i + 1)
  }

  function NewRequest(f: Filing, id: string, tagged: set<string>): Request
  {
    var dual := f.dualControl || (f.item.Some? && f.item.value in tagged);
    Request(id, f.agent, f.kind, f.resource, f.action, f.reason, f.decider, dual, f.grant, f.via, Pending, [], None)
  }

  /** File a request; one that came through the broker answers the open request instead of
      queueing the same question twice. */
  function FileStep(doc: Doc, f: Filing, reuse: bool, tagged: set<string>, id: string, saves: bool): (Doc, Answer)
  {
    var open := if reuse then FirstOpen(doc, f, 0) else None;
    if open.Some? then (doc, Open(doc[open.value]))
    else if !saves then (doc, Failed(NotSaved))
    else (doc + [NewRequest(f, id, tagged)], Filed(NewRequest(f, id, tagged)))
  }

  /** What the vault refuses to issue whatever it finds. */
  predicate Issuable(grant: Grant, b: Bounds)
  {
    grant.Capability? ==> b.lifetime.Seconds? && b.uses.Some?
  }

  function WithApproval(r: Request, who: string, b: Bounds): Request
  {
    r.(decisions := r.decisions + [Approve(who, b)])
  }

  predicate Enough(r: Request)
  {
    var n := |Approvals(r.decisions)|;
    if r.dualControl then n >= 2 else n >= 1
  }

  function Bound(r: Request): Bounds
    requires Approvals(r.decisions) != []
  {
    Bounds(Reduced(StatedBounds(r)), Fewest(StatedBounds(r)))
  }

  /** What the vault does when it is asked for a grant: refuse, write it and still answer an
      error (its audit entry fails after the vault is saved), or issue it. */
  datatype Issuing = Refuses | WritesAndFails | Issues

  /** A consumer that holds a grant is given no other. */
  predicate Held(grant: Grant, holders: set<string>)
  {
    grant.Consumer? && grant.consumer in holders
  }

  /** Record an approval of request `at`, and issue the grant when enough deciders approved;
      the third part is the grant the vault wrote, if it did.  A record request has the vault
      write nothing. */
  function ApproveAt(doc: Doc, holders: set<string>, at: nat, who: string, b: Bounds, host: Host, issuing: Issuing, saves: bool)
      : (Doc, Answer, Option<Bounds>)
    requires at < |doc|
  {
    var r := doc[at];
    var refusal := Authorize(r, who, host);
    if refusal.Some? then (doc, Failed(refusal.value), None)
    else if UsesFor(r.grant, b.uses, b.lifetime).Some? then (doc, Failed(UsesFor(r.grant, b.uses, b.lifetime).value), None)
    else
      var taken := WithApproval(r, who, b);
      ApprovalsNext(r.decisions, Approve(who, b));
      if !Enough(taken) then
        if saves then (doc[at := taken], Taken(false, taken), None) else (doc, Failed(NotSaved), None)
      else
        var bound := Bound(taken);
        var granted := taken.(issued := Some(bound), status := Approved);
        if r.grant.Record? then
          if saves then (doc[at := granted], Taken(true, granted), None) else (doc, Failed(NotSaved), None)
        else if !Issuable(r.grant, bound) || Held(r.grant, holders) || issuing.Refuses? then (doc, Failed(NotIssued), None)
        else if issuing.WritesAndFails? then (doc, Failed(NotIssued), Some(bound))
        else if !saves then (doc, Failed(NotSaved), Some(bound))
        else (doc[at := granted], Taken(true, granted), Some(bound))
  }

  datatype Closing = Denying(reason: Option<string>) | Withdrawing

  /** The decision that closes a request, and the state it leaves. */
  function Closes(who: string, closing: Closing): (Decision, Status)
  {
    match closing
    case Denying(reason) => (Deny(who, reason), Denied)
    case Withdrawing => (Withdraw(who), Withdrawn)
  }

  function ClosedBy(r: Request, decision: Decision, status: Status): Request
  {
    r.(decisions := r.decisions + [decision], status := status)
  }

  function CloseAt(doc: Doc, at: nat, who: string, closing: Closing, host: Host, saves: bool): (Doc, Answer)
    requires at < |doc|
  {
    var r := doc[at];
    var refusal := if closing.Withdrawing? && r.agent == who
                   then (if r.status != Pending then Some(NotPending) else None)
                   else Authorize(r, who, host);
    if refusal.Some? then (doc, Failed(refusal.value))
    else if !saves then (doc, Failed(NotSaved))
    else
      var (decision, status) := Closes(who, closing);
      (doc[at := ClosedBy(r, decision, status)], Closed(status))
  }

  function ApproveStep(doc: Doc, holders: set<string>, id: string, who: string, b: Bounds, host: Host, issuing: Issuing, saves: bool)
      : (Doc, Answer, Option<Bounds>)
  {
    var at := Find(doc, id, 0);
    if at.None? then (doc, Failed(NotFound), None) else ApproveAt(doc, holders, at.value, who, b, host, issuing, saves)
  }

  function CloseStep(doc: Doc, id: string, who: string, closing: Closing, host: Host, saves: bool): (Doc, Answer)
  {
    var at := Find(doc, id, 0);
    if at.None? then (doc, Failed(NotFound)) else CloseAt(doc, at.value, who, closing, host, saves)
  }

  /** In a vault event someone else gives a consumer a grant, or revokes it. */
  datatype Event =
    | FileEvent(filing: Filing, reuse: bool, tagged: set<string>, newId: string, saves: bool)
    | ApproveEvent(id: string, who: string, bounds: Bounds, host: Host, issuing: Issuing, saves: bool)
    | CloseEvent(id: string, who: string, closing: Closing, host: Host, saves: bool)
    | VaultEvent(consumer: string, holds: bool)

  /** The register, and the consumers that hold a grant in the vault. */
  datatype State = State(doc: Doc, holders: set<string>)

  /** Who holds a grant once request `at` was given one. */
  function HoldersAfter(doc: Doc, holders: set<string>, id: string, granted: Option<Bounds>): set<string>
  {
    var at := Find(doc, id, 0);
    if granted.Some? && at.Some? && doc[at.value].grant.Consumer? then holders + {doc[at.value].grant.consumer} else holders
  }

  function Step(s: State, e: Event): (State, Answer, Option<Bounds>)
  {
    match e
    case FileEvent(filing, reuse, tagged, newId, saves) =>
      var (after, answer) := FileStep(s.doc, filing, reuse, tagged, newId, saves);
      (s.(doc := after), answer, None)
    case ApproveEvent(id, who, bounds, host, issuing, saves) =>
      var (after, answer, granted) := ApproveStep(s.doc, s.holders, id, who, bounds, host, issuing, saves);
      (State(after, HoldersAfter(s.doc, s.holders, id, granted)), answer, granted)
    case CloseEvent(id, who, closing, host, saves) =>
      var (after, answer) := CloseStep(s.doc, id, who, closing, host, saves);
      (s.(doc := after), answer, None)
    case VaultEvent(consumer, holds) =>
      (s.(holders := if holds then s.holders + {consumer} else s.holders - {consumer}), Elsewhere, None)
  }

  /** The stored register and the operations on it. */
  class Register {
    var requests: Doc

    constructor ()
      ensures requests == []
    {
      requests := [];
    }

    method Save(doc: Doc, saves: bool) returns (saved: bool)
      modifies this
      ensures saved == saves && requests == if saves then doc else old(requests)
    {
      if saves {
        requests := doc;
      }
      saved := saves;
    }

    method File(filing: Filing, reuse: bool, tagged: set<string>, id: string, saves: bool) returns (answer: Answer)
      modifies this
      ensures (requests, answer) == FileStep(old(requests), filing, reuse, tagged, id, saves)
    {
      if reuse {
        var open := FirstOpen(requests, filing, 0);
        if open.Some? {
          return Open(requests[open.value]);
        }
      }
      var record := NewRequest(filing, id, tagged);
      var saved := Save(requests + [record], saves);
      answer := if saved then Filed(record) else Failed(NotSaved);
    }

    /** `holders` are the consumers the vault has a grant for. */
    method Approve(id: string, who: string, bounds: Bounds, host: Host, holders: set<string>, issuing: Issuing, saves: bool)
        returns (answer: Answer, ghost granted: Option<Bounds>)
      modifies this
      ensures (requests, answer, granted) == ApproveStep(old(requests), holders, id, who, bounds, host, issuing, saves)
    {
      granted := None;
      var at := Find(requests, id, 0);
      if at.None? {
        return Failed(NotFound), None;
      }
      var record := requests[at.value];
      var refusal := Authorize(record, who, host);
      if refusal.Some? {
        return Failed(refusal.value), None;
      }
      refusal := UsesFor(record.grant, bounds.uses, bounds.lifetime);
      if refusal.Some? {
        return Failed(refusal.value), None;
      }
      ApprovalsNext(record.decisions, Decision.Approve(who, bounds));
      var grant := record.grant;
      record := record.(decisions := record.decisions + [Decision.Approve(who, bounds)]);
      var enough := Enough(record);
      if enough {
        var bound := Bound(record);
        if !grant.Record? {
          if !Issuable(grant, bound) || Held(grant, holders) || issuing.Refuses? {
            return Failed(NotIssued), None;
          }
          granted := Some(bound);
          if issuing.WritesAndFails? {
            return Failed(NotIssued), granted;
          }
        }
        record := record.(issued := Some(bound), status := Approved);
      }
      var saved := Save(requests[at.value := record], saves);
      answer := if saved then Taken(enough, record) else Failed(NotSaved);
    }

    method Close(id: string, who: string, closing: Closing, host: Host, saves: bool) returns (answer: Answer)
      modifies this
      ensures (requests, answer) == CloseStep(old(requests), id, who, closing, host, saves)
    {
      var at := Find(requests, id, 0);
      if at.None? {
        return Failed(NotFound);
      }
      var record := requests[at.value];
      if closing.Withdrawing? && record.agent == who {
        if record.status != Pending {
          return Failed(NotPending);
        }
      } else {
        var refusal := Authorize(record, who, host);
        if refusal.Some? {
          return Failed(refusal.value);
        }
      }
      match closing {
        case Denying(reason) => record := record.(decisions := record.decisions + [Deny(who, reason)], status := Denied);
        case Withdrawing => record := record.(decisions := record.decisions + [Withdraw(who)], status := Withdrawn);
      }
      var saved := Save(requests[at.value := record], saves);
      answer := if saved then Closed(record.status) else Failed(NotSaved);
    }
  }

  // ---- what every request keeps -------------------------------------------------------------------

  ghost predicate DistinctDeciders(approvals: seq<Decision>)
  {
    forall i, j :: 0 <= i < j < |approvals| ==> approvals[i].who != approvals[j].who
  }

  ghost predicate AllStatable(grant: Grant, stated: seq<Bounds>)
  {
    forall i :: 0 <= i < |stated| ==> Statable(grant, stated[i])
  }

  /** A pending request has fewer approvals than it needs and issued nothing.  An approved
      one has exactly as many, and was issued the narrowest of what they stated.  A denied
      or withdrawn one issued nothing, and its last decision closed it. */
  ghost predicate Sound(r: Request)
  {
    var approvals := Approvals(r.decisions);
    && DistinctDeciders(approvals) && AllStatable(r.grant, StatedBounds(r))
    && match r.status
       case Pending => r.issued == None && approvals == r.decisions && |approvals| < Quorum(r)
       case Approved =>
         && approvals == r.decisions && |approvals| == Quorum(r)
         && r.issued.Some? && Narrowest(r.issued.value, StatedBounds(r)) && Statable(r.grant, r.issued.value)
       case Denied =>
         r.issued == None && |approvals| < Quorum(r) && |r.decisions| > 0 && r.decisions[|r.decisions| - 1].Deny?
       case Withdrawn =>
         r.issued == None && |approvals| < Quorum(r) && |r.decisions| > 0 && r.decisions[|r.decisions| - 1].Withdraw?
  }

  /** Only what was decided about a request changes: its question and its terms do not, and
      decisions are only added. */
  ghost predicate Extends(before: Request, after: Request)
  {
    && before == after.(status := before.status, decisions := before.decisions, issued := before.issued)
    && before.decisions <= after.decisions
    && (before.status != Pending ==> after == before)
  }

  lemma WithApprovalIsSound(r: Request, who: string, b: Bounds)
    requires Sound(r) && r.status == Pending && !Decided(r.decisions, who) && Statable(r.grant, b)
    ensures var taken := WithApproval(r, who, b);
            && Approvals(taken.decisions) == taken.decisions
            && DistinctDeciders(Approvals(taken.decisions)) && AllStatable(r.grant, StatedBounds(taken))
            && |Approvals(taken.decisions)| == |Approvals(r.decisions)| + 1 <= Quorum(r)
  {
    ApprovalsNext(r.decisions, Approve(who, b));
    var taken := WithApproval(r, who, b);
    var n := |r.decisions|;
    forall i | 0 <= i < n ensures taken.decisions[i].who != who {
      assert taken.decisions[i] == r.decisions[i];
    }
    forall i | 0 <= i < |StatedBounds(taken)| ensures Statable(r.grant, StatedBounds(taken)[i]) {
      if i < n {
        assert StatedBounds(taken)[i] == StatedBounds(r)[i];
      }
    }
  }

  /** The narrowest of statable bounds can be issued: an approval is never refused there. */
  lemma NarrowestIsStatable(grant: Grant, b: Bounds, stated: seq<Bounds>)
    requires AllStatable(grant, stated) && Narrowest(b, stated)
    ensures Statable(grant, b) && Issuable(grant, b)
  {
    var i :| 0 <= i < |stated| && stated[i].lifetime == b.lifetime;
    assert Statable(grant, stated[i]) && UsesWithin(b.uses, stated[i].uses);
    if b.uses.Some? {
      var j :| 0 <= j < |stated| && stated[j].uses == b.uses;
      assert Statable(grant, stated[j]);
    }
  }

  /** The request with one more approval, granted when that is enough. */
  function ApprovedBy(r: Request, who: string, b: Bounds): Request
  {
    var taken := WithApproval(r, who, b);
    ApprovalsNext(r.decisions, Approve(who, b));
    if Enough(taken) then taken.(issued := Some(Bound(taken)), status := Approved) else taken
  }

  lemma ApproveMakes(doc: Doc, holders: set<string>, at: nat, who: string, b: Bounds, host: Host, issuing: Issuing, saves: bool)
    requires at < |doc|
    ensures var after := ApproveAt(doc, holders, at, who, b, host, issuing, saves).0;
      after == doc || (Authorize(doc[at], who, host).None? && UsesFor(doc[at].grant, b.uses, b.lifetime).None?
                       && after == doc[at := ApprovedBy(doc[at], who, b)])
  {
  }

  /** An approval changes one request, and only what was decided about it. */
  lemma ApproveExtends(doc: Doc, holders: set<string>, at: nat, who: string, b: Bounds, host: Host, issuing: Issuing, saves: bool)
    requires at < |doc|
    ensures var after := ApproveAt(doc, holders, at, who, b, host, issuing, saves).0;
            |after| == |doc| && after == doc[at := after[at]] && Extends(doc[at], after[at])
  {
    ApproveMakes(doc, holders, at, who, b, host, issuing, saves);
  }

  lemma ApprovedIsSound(r: Request, who: string, b: Bounds, host: Host)
    requires Sound(r) && Authorize(r, who, host).None? && UsesFor(r.grant, b.uses, b.lifetime).None?
    ensures Sound(ApprovedBy(r, who, b))
  {
    UsesForExactly(r.grant, b);
    WithApprovalIsSound(r, who, b);
    var taken := WithApproval(r, who, b);
    if Enough(taken) {
      ReducedIsNarrowest(StatedBounds(taken));
      NarrowestIsStatable(r.grant, Bound(taken), StatedBounds(taken));
    }
  }

  lemma ApproveKeeps(doc: Doc, holders: set<string>, at: nat, who: string, b: Bounds, host: Host, issuing: Issuing, saves: bool)
    requires at < |doc| && Sound(doc[at])
    ensures |ApproveAt(doc, holders, at, who, b, host, issuing, saves).0| == |doc|
    ensures Sound(ApproveAt(doc, holders, at, who, b, host, issuing, saves).0[at])
  {
    ApproveMakes(doc, holders, at, who, b, host, issuing, saves);
    if ApproveAt(doc, holders, at, who, b, host, issuing, saves).0 != doc {
      ApprovedIsSound(doc[at], who, b, host);
    }
  }

  /** A closing does so too. */
  lemma CloseExtends(doc: Doc, at: nat, who: string, closing: Closing, host: Host, saves: bool)
    requires at < |doc|
    ensures var after := CloseAt(doc, at, who, closing, host, saves).0;
            |after| == |doc| && after == doc[at := after[at]] && Extends(doc[at], after[at])
  {
    CloseMakes(doc, at, who, closing, host, saves);
  }

  lemma CloseKeeps(doc: Doc, at: nat, who: string, closing: Closing, host: Host, saves: bool)
    requires at < |doc| && Sound(doc[at])
    ensures |CloseAt(doc, at, who, closing, host, saves).0| == |doc|
    ensures Sound(CloseAt(doc, at, who, closing, host, saves).0[at])
  {
    var r := doc[at];
    CloseMakes(doc, at, who, closing, host, saves);
    if CloseAt(doc, at, who, closing, host, saves).0 != doc {
      ClosedIsSound(r, Closes(who, closing).0, Closes(who, closing).1);
    }
  }

  lemma CloseMakes(doc: Doc, at: nat, who: string, closing: Closing, host: Host, saves: bool)
    requires at < |doc|
    ensures var after := CloseAt(doc, at, who, closing, host, saves).0;
            after == doc || (doc[at].status == Pending && after == doc[at := ClosedBy(doc[at], Closes(who, closing).0, Closes(who, closing).1)])
  {
  }

  lemma ClosedIsSound(r: Request, d: Decision, status: Status)
    requires Sound(r) && r.status == Pending && ((d.Deny? && status == Denied) || (d.Withdraw? && status == Withdrawn))
    ensures Sound(ClosedBy(r, d, status))
  {
    ApprovalsNext(r.decisions, d);
    var closed := ClosedBy(r, d, status);
    assert Approvals(closed.decisions) == Approvals(r.decisions) && StatedBounds(closed) == StatedBounds(r);
    assert closed.decisions[|closed.decisions| - 1] == d;
  }

  ghost predicate AllSound(doc: Doc)
  {
    forall i :: 0 <= i < |doc| ==> Sound(doc[i])
  }

  ghost predicate Follows(before: Doc, after: Doc)
  {
    |before| <= |after| && forall i :: 0 <= i < |before| ==> Extends(before[i], after[i])
  }

  /** Every step keeps every request, and changes of it only what was decided. */
  lemma StepExtends(s: State, e: Event)
    ensures Follows(s.doc, Step(s, e).0.doc)
  {
    if e.ApproveEvent? || e.CloseEvent? {
      var at := Find(s.doc, e.id, 0);
      if at.Some? {
        if e.ApproveEvent? {
          ApproveExtends(s.doc, s.holders, at.value, e.who, e.bounds, e.host, e.issuing, e.saves);
        } else {
          CloseExtends(s.doc, at.value, e.who, e.closing, e.host, e.saves);
        }
      }
    }
  }

  lemma StepKeeps(s: State, e: Event)
    requires AllSound(s.doc)
    ensures AllSound(Step(s, e).0.doc)
  {
    if e.ApproveEvent? || e.CloseEvent? {
      var at := Find(s.doc, e.id, 0);
      if at.Some? {
        if e.ApproveEvent? {
          ApproveExtends(s.doc, s.holders, at.value, e.who, e.bounds, e.host, e.issuing, e.saves);
          ApproveKeeps(s.doc, s.holders, at.value, e.who, e.bounds, e.host, e.issuing, e.saves);
        } else {
          CloseExtends(s.doc, at.value, e.who, e.closing, e.host, e.saves);
          CloseKeeps(s.doc, at.value, e.who, e.closing, e.host, e.saves);
        }
      }
    }
  }

  // ---- runs -----------------------------------------------------------------------------------------

  function After(run: seq<Event>, n: nat): State
    requires n <= |run|
  {
    if n == 0 then State([], {}) else Step(After(run, n - 1), run[n - 1]).0
  }

  /** In every reachable register every request is sound: what it issued is what distinct,
      sufficiently many deciders approved, at its narrowest, and nothing otherwise. */
  lemma {:induction false} EveryRequestIsSound(run: seq<Event>, n: nat)
    requires n <= |run|
    ensures AllSound(After(run, n).doc)
  {
    if n > 0 {
      EveryRequestIsSound(run, n - 1);
      StepKeeps(After(run, n - 1), run[n - 1]);
    }
  }

  lemma FollowsStep(a: Doc, s: State, e: Event)
    requires Follows(a, s.doc)
    ensures Follows(a, Step(s, e).0.doc)
  {
    StepExtends(s, e);
    FollowsOn(a, s.doc, Step(s, e).0.doc);
  }

  lemma FollowsOn(a: Doc, b: Doc, c: Doc)
    requires Follows(a, b) && Follows(b, c)
    ensures Follows(a, c)
  {
    forall i | 0 <= i < |a| ensures Extends(a[i], c[i]) {
      assert Extends(a[i], b[i]) && Extends(b[i], c[i]);
    }
  }

  /** A request is never removed, its terms never change, its decisions are only added to,
      and once it has left pending nothing about it changes. */
  lemma {:induction false} RequestsOnlyMoveOn(run: seq<Event>, n: nat, m: nat)
    requires n <= m <= |run|
    ensures Follows(After(run, n).doc, After(run, m).doc)
    decreases m - n
  {
    if n < m {
      RequestsOnlyMoveOn(run, n, m - 1);
      FollowsStep(After(run, n).doc, After(run, m - 1), run[m - 1]);
    }
  }

  /** Who took a decision that was recorded: an owner or admin of the vault the request
      names, with the key on this host, who had not decided it before; or its own agent. */
  predicate MayDecide(r: Request, who: string, host: Host)
  {
    && r.status == Pending && who in host.recipients
    && host.recipients[who].role in {"owner", "admin"}
    && (r.decider == "admin" || r.decider == host.recipients[who].role || (r.decider == who && r.decider != "owner"))
    && host.recipients[who].fingerprint.Some? && host.recipients[who].fingerprint.value in host.keys
    && (forall d :: d in r.decisions ==> d.who != who)
  }

  lemma AuthorizeExactly(r: Request, who: string, host: Host)
    ensures Authorize(r, who, host).None? <==> MayDecide(r, who, host)
  {
  }

  lemma DecisionsAreAuthorized(s: State, e: Event)
    requires (e.ApproveEvent? || e.CloseEvent?) && Step(s, e).0.doc != s.doc
    ensures var (doc, at) := (s.doc, Find(s.doc, e.id, 0));
            && at.Some?
            && (MayDecide(doc[at.value], e.who, e.host)
                || (e.CloseEvent? && e.closing.Withdrawing? && doc[at.value].agent == e.who && doc[at.value].status == Pending))
  {
    var at := Find(s.doc, e.id, 0);
    AuthorizeExactly(s.doc[at.value], e.who, e.host);
  }

  // ---- one open copy of a question ----------------------------------------------------------------------

  ghost predicate OpenCopy(r: Request, q: Question)
  {
    r.status == Pending && QuestionOf(r) == q
  }

  ghost function Copies(doc: Doc, q: Question): nat
  {
    if doc == [] then 0 else Copies(doc[..|doc| - 1], q) + if OpenCopy(doc[|doc| - 1], q) then 1 else 0
  }

  lemma {:induction false} NoCopies(doc: Doc, q: Question)
    requires forall i :: 0 <= i < |doc| ==> !OpenCopy(doc[i], q)
    ensures Copies(doc, q) == 0
  {
    if doc != [] {
      NoCopies(doc[..|doc| - 1], q);
    }
  }

  lemma {:induction false} CopiesOnlyClose(doc: Doc, at: nat, r: Request, q: Question)
    requires at < |doc| && Extends(doc[at], r)
    ensures Copies(doc[at := r], q) <= Copies(doc, q)
  {
    var n := |doc| - 1;
    if at < n {
      assert doc[at := r][..n] == doc[..n][at := r];
      CopiesOnlyClose(doc[..n], at, r, q);
    } else {
      assert doc[at := r][..n] == doc[..n];
    }
  }

  lemma CopiesOneMore(doc: Doc, r: Request, q: Question)
    ensures Copies(doc + [r], q) == Copies(doc, q) + if OpenCopy(r, q) then 1 else 0
  {
    assert (doc + [r])[..|doc|] == doc;
  }

  /** Deciding adds no open copy of a question, filing at most one, and a broker's filing
      one only when there was none. */
  lemma StepCopies(s: State, e: Event, q: Question)
    ensures Copies(Step(s, e).0.doc, q)
         <= if e.FileEvent? && QuestionIn(e.filing) == q then (if e.reuse && Copies(s.doc, q) > 0 then Copies(s.doc, q) else Copies(s.doc, q) + 1)
            else Copies(s.doc, q)
  {
    match e
    case FileEvent(f, reuse, tagged, newId, saves) =>
      CopiesOneMore(s.doc, NewRequest(f, newId, tagged), q);
      if reuse && QuestionIn(f) == q && FirstOpen(s.doc, f, 0).None? {
        forall i | 0 <= i < |s.doc| ensures !OpenCopy(s.doc[i], q) {
          assert !SameQuestion(s.doc[i], f);
        }
        NoCopies(s.doc, q);
      }
    case ApproveEvent(id, who, bounds, host, issuing, saves) =>
      var at := Find(s.doc, id, 0);
      if at.Some? {
        ApproveExtends(s.doc, s.holders, at.value, who, bounds, host, issuing, saves);
        CopiesOnlyClose(s.doc, at.value, Step(s, e).0.doc[at.value], q);
      }
    case CloseEvent(id, who, closing, host, saves) =>
      var at := Find(s.doc, id, 0);
      if at.Some? {
        CloseExtends(s.doc, at.value, who, closing, host, saves);
        CopiesOnlyClose(s.doc, at.value, Step(s, e).0.doc[at.value], q);
      }
    case VaultEvent(_, _) =>
  }

  ghost predicate OnlyByBroker(run: seq<Event>, n: nat, q: Question)
  {
    forall k :: 0 <= k < n <= |run| && run[k].FileEvent? && QuestionIn(run[k].filing) == q ==> run[k].reuse
  }

  /** A question that is only filed through the broker is never open twice. */
  lemma {:induction false} OneOpenCopy(run: seq<Event>, n: nat, q: Question)
    requires n <= |run| && OnlyByBroker(run, n, q)
    ensures Copies(After(run, n).doc, q) <= 1
  {
    if n > 0 {
      OnlyByBrokerSoFar(run, n - 1, q);
      OneOpenCopy(run, n - 1, q);
      NoSecondCopy(After(run, n - 1), run[n - 1], q);
    }
  }

  lemma OnlyByBrokerSoFar(run: seq<Event>, n: nat, q: Question)
    requires n < |run| && OnlyByBroker(run, n + 1, q)
    ensures OnlyByBroker(run, n, q) && (run[n].FileEvent? && QuestionIn(run[n].filing) == q ==> run[n].reuse)
  {
  }

  lemma NoSecondCopy(s: State, e: Event, q: Question)
    requires Copies(s.doc, q) <= 1 && (e.FileEvent? && QuestionIn(e.filing) == q ==> e.reuse)
    ensures Copies(Step(s, e).0.doc, q) <= 1
  {
    StepCopies(s, e, q);
  }

  // ---- grants -----------------------------------------------------------------------------------------------

  /** Event n had the vault write a grant for request i. */
  ghost predicate GrantsAt(run: seq<Event>, n: nat, i: nat)
  {
    && n < |run| && run[n].ApproveEvent? && Step(After(run, n), run[n]).2.Some?
    && Find(After(run, n).doc, run[n].id, 0) == Some(i)
  }

  /** A grant the register never heard of: the vault answered an error after writing it, or
      the register could not be written. */
  ghost predicate LostAt(run: seq<Event>, n: nat, i: nat)
  {
    GrantsAt(run, n, i) && !(run[n].issuing.Issues? && run[n].saves)
  }

  ghost function Grants(run: seq<Event>, n: nat, i: nat): nat
    requires n <= |run|
  {
    if n == 0 then 0 else Grants(run, n - 1, i) + if GrantsAt(run, n - 1, i) then 1 else 0
  }

  ghost function Lost(run: seq<Event>, n: nat, i: nat): nat
    requires n <= |run|
  {
    if n == 0 then 0 else Lost(run, n - 1, i) + if LostAt(run, n - 1, i) then 1 else 0
  }

  ghost predicate IsApproved(doc: Doc, i: nat)
  {
    i < |doc| && doc[i].status == Approved
  }

  /** Approved, and for a grant the vault writes. */
  ghost predicate IsGranted(doc: Doc, i: nat)
  {
    IsApproved(doc, i) && !doc[i].grant.Record?
  }

  /** Every grant the vault wrote for a request is the one its approval records, or was lost:
      without those, one grant for an approved request and none for any other; and none ever
      for a record request. */
  lemma {:induction false} GrantsAreApprovals(run: seq<Event>, n: nat, i: nat)
    requires n <= |run|
    ensures Grants(run, n, i) == (if IsGranted(After(run, n).doc, i) then 1 else 0) + Lost(run, n, i)
  {
    if n > 0 {
      GrantsAreApprovals(run, n - 1, i);
      GrantedStep(After(run, n - 1), run[n - 1], i);
    }
  }

  lemma GrantedStep(s: State, e: Event, i: nat)
    ensures var granted := e.ApproveEvent? && Step(s, e).2.Some? && Find(s.doc, e.id, 0) == Some(i);
            && IsGranted(Step(s, e).0.doc, i) == (IsGranted(s.doc, i) || (granted && e.issuing.Issues? && e.saves))
            && (granted ==> !IsGranted(s.doc, i))
  {
    if e.ApproveEvent? || e.CloseEvent? {
      var at := Find(s.doc, e.id, 0);
      if at.Some? {
        if e.ApproveEvent? {
          GrantedBy(s.doc, s.holders, at.value, e.who, e.bounds, e.host, e.issuing, e.saves);
        } else {
          CloseApprovesNone(s.doc, at.value, e.who, e.closing, e.host, e.saves);
        }
      }
    }
  }

  lemma GrantedBy(doc: Doc, holders: set<string>, at: nat, who: string, b: Bounds, host: Host, issuing: Issuing, saves: bool)
    requires at < |doc|
    ensures var (after, answer, granted) := ApproveAt(doc, holders, at, who, b, host, issuing, saves);
            && |after| == |doc| && (forall i :: 0 <= i < |doc| && i != at ==> after[i] == doc[i])
            && IsGranted(after, at) == (IsGranted(doc, at) || (granted.Some? && issuing.Issues? && saves))
            && (granted.Some? ==> !IsGranted(doc, at))
  {
  }

  lemma CloseApprovesNone(doc: Doc, at: nat, who: string, closing: Closing, host: Host, saves: bool)
    requires at < |doc|
    ensures var after := CloseAt(doc, at, who, closing, host, saves).0;
            && |after| == |doc| && (forall i :: 0 <= i < |doc| && i != at ==> after[i] == doc[i])
            && IsApproved(after, at) == IsApproved(doc, at)
  {
  }

  /** Event n recorded the approval of request i, and what the vault wrote for it. */
  ghost predicate RecordsAt(run: seq<Event>, n: nat, i: nat, r: Request)
  {
    && n < |run| && run[n].ApproveEvent? && run[n].saves && Find(After(run, n).doc, run[n].id, 0) == Some(i)
    && r.issued.Some? && Step(After(run, n), run[n]).2 == (if r.grant.Record? then None else r.issued)
  }

  /** What an approved request says was issued is what the vault wrote when it was approved. */
  lemma {:induction false} ApprovedWasIssued(run: seq<Event>, n: nat, i: nat) returns (k: nat)
    requires n <= |run| && IsApproved(After(run, n).doc, i)
    ensures k < n && RecordsAt(run, k, i, After(run, n).doc[i])
  {
    var s := After(run, n - 1);
    StepExtends(s, run[n - 1]);
    if IsApproved(s.doc, i) {
      k := ApprovedWasIssued(run, n - 1, i);
    } else {
      k := n - 1;
      RecordedStep(s, run[n - 1], i);
    }
  }

  lemma RecordedStep(s: State, e: Event, i: nat)
    requires !IsApproved(s.doc, i) && IsApproved(Step(s, e).0.doc, i)
    ensures e.ApproveEvent? && e.saves && Find(s.doc, e.id, 0) == Some(i)
    ensures var r := Step(s, e).0.doc[i]; r.issued.Some? && Step(s, e).2 == (if r.grant.Record? then None else r.issued)
  {
    if e.CloseEvent? {
      var at := Find(s.doc, e.id, 0);
      if at.Some? { CloseApprovesNone(s.doc, at.value, e.who, e.closing, e.host, e.saves); }
    }
  }

  // ---- grants that were lost --------------------------------------------------------------------------------

  /** The decider may approve, may state the bounds, and is the last one needed. */
  ghost predicate Completes(r: Request, who: string, b: Bounds, host: Host)
  {
    && Authorize(r, who, host).None? && UsesFor(r.grant, b.uses, b.lifetime).None?
    && (ApprovalsNext(r.decisions, Approve(who, b));
        Enough(WithApproval(r, who, b)) && Issuable(r.grant, Bound(WithApproval(r, who, b))))
  }

  /** When an approval has the vault write a grant. */
  lemma WritesExactly(doc: Doc, holders: set<string>, at: nat, who: string, b: Bounds, host: Host, issuing: Issuing, saves: bool)
    requires at < |doc|
    ensures ApproveAt(doc, holders, at, who, b, host, issuing, saves).2.Some? <==>
      && Completes(doc[at], who, b, host) && !doc[at].grant.Record? && !Held(doc[at].grant, holders) && !issuing.Refuses?
  {
  }

  lemma FindStays(before: Doc, after: Doc, id: string, i: nat)
    requires Follows(before, after) && Find(before, id, 0) == Some(i)
    ensures Find(after, id, 0) == Some(i)
  {
    assert Extends(before[i], after[i]);
    forall j | 0 <= j < i ensures after[j].id != id {
      assert Extends(before[j], after[j]);
    }
  }

  ghost predicate SameApproval(e: Event, f: Event)
  {
    e.ApproveEvent? && f.ApproveEvent? && e.id == f.id && e.who == f.who && e.bounds == f.bounds && e.host == f.host
  }

  /** After a grant was lost the same approval, of the request as it still is, has the vault
      write another if and only if the vault does not refuse and, for a consumer, the grant no
      longer stands. */
  lemma LostGrantRepeats(run: seq<Event>, n: nat, m: nat, i: nat)
    requires LostAt(run, n, i) && n < m < |run| && SameApproval(run[n], run[m])
    requires i < |After(run, m).doc| && After(run, m).doc[i] == After(run, n).doc[i]
    ensures GrantsAt(run, m, i) <==>
      !run[m].issuing.Refuses? && !Held(After(run, m).doc[i].grant, After(run, m).holders)
  {
    var (s, t, e, f) := (After(run, n), After(run, m), run[n], run[m]);
    RequestsOnlyMoveOn(run, n, m);
    FindStays(s.doc, t.doc, e.id, i);
    WritesExactly(s.doc, s.holders, i, e.who, e.bounds, e.host, e.issuing, e.saves);
    WritesExactly(t.doc, t.holders, i, f.who, f.bounds, f.host, f.issuing, f.saves);
  }

  /** Losing a grant leaves the register as it was. */
  lemma LostLeavesPending(run: seq<Event>, n: nat, i: nat)
    requires LostAt(run, n, i)
    ensures After(run, n + 1).doc == After(run, n).doc && After(run, n).doc[i].status == Pending
    ensures var g := After(run, n).doc[i].grant; !g.Record? && (g.Consumer? ==> g.consumer in After(run, n + 1).holders)
  {
  }

  /** Nobody revokes the consumer's grant from event n until event m. */
  ghost predicate Stands(run: seq<Event>, n: nat, m: nat, consumer: string)
    requires m <= |run|
  {
    forall k :: n <= k < m ==> run[k] != VaultEvent(consumer, false)
  }

  lemma {:induction false} StandsHeld(run: seq<Event>, n: nat, m: nat, consumer: string)
    requires n <= m <= |run| && consumer in After(run, n).holders && Stands(run, n, m, consumer)
    ensures consumer in After(run, m).holders
    decreases m
  {
    if n < m {
      StandsHeld(run, n, m - 1, consumer);
      assert run[m - 1] != VaultEvent(consumer, false);
    }
  }

  lemma GrantIsHeld(run: seq<Event>, n: nat, i: nat)
    requires GrantsAt(run, n, i)
    ensures var g := After(run, n).doc[i].grant; g.Consumer? ==> g.consumer !in After(run, n).holders && g.consumer in After(run, n + 1).holders
  {
    var (s, e) := (After(run, n), run[n]);
    WritesExactly(s.doc, s.holders, i, e.who, e.bounds, e.host, e.issuing, e.saves);
  }

  /** As long as a consumer's grant stands, lost or not, no request has the vault write it
      another. */
  lemma OneStandingGrant(run: seq<Event>, n: nat, m: nat, i: nat, j: nat, consumer: string)
    requires GrantsAt(run, n, i) && GrantsAt(run, m, j) && n < m
    requires After(run, n).doc[i].grant == Consumer(consumer) == After(run, m).doc[j].grant
    ensures !Stands(run, n + 1, m, consumer)
  {
    GrantIsHeld(run, n, i);
    GrantIsHeld(run, m, j);
    if Stands(run, n + 1, m, consumer) {
      StandsHeld(run, n + 1, m, consumer);
    }
  }

  /** And the request whose grant was lost cannot be approved: its grant lives on beside it,
      until somebody revokes it. */
  lemma {:induction false} LostConsumerWaits(run: seq<Event>, n: nat, m: nat, i: nat)
    requires LostAt(run, n, i) && n < m <= |run| && After(run, n).doc[i].grant.Consumer?
    requires Stands(run, n + 1, m, After(run, n).doc[i].grant.consumer)
    ensures i < |After(run, m).doc| && After(run, m).doc[i].grant == After(run, n).doc[i].grant
    ensures !IsApproved(After(run, m).doc, i) && After(run, n).doc[i].grant.consumer in After(run, m).holders
    decreases m
  {
    LostLeavesPending(run, n, i);
    RequestsOnlyMoveOn(run, n, m);
    assert Extends(After(run, n).doc[i], After(run, m).doc[i]);
    StandsHeld(run, n + 1, m, After(run, n).doc[i].grant.consumer);
    if n + 1 < m {
      LostConsumerWaits(run, n, m - 1, i);
      NotApprovedWhileHeld(After(run, m - 1), run[m - 1], i);
    }
  }

  lemma NotApprovedWhileHeld(s: State, e: Event, i: nat)
    requires i < |s.doc| && Held(s.doc[i].grant, s.holders) && !IsApproved(s.doc, i)
    ensures !IsApproved(Step(s, e).0.doc, i)
  {
    if IsApproved(Step(s, e).0.doc, i) {
      RecordedStep(s, e, i);
      StepExtends(s, e);
      assert Extends(s.doc[i], Step(s, e).0.doc[i]);
      WritesExactly(s.doc, s.holders, i, e.who, e.bounds, e.host, e.issuing, e.saves);
    }
  }

  // ---- runs in which a grant is lost ------------------------------------------------------------------------

  /** One decider is enough for a request filed so, and may approve it within these bounds. */
  ghost predicate OneApproves(f: Filing, id: string, who: string, b: Bounds, host: Host)
  {
    var r := NewRequest(f, id, {});
    !r.dualControl && MayDecide(r, who, host) && Statable(f.grant, b)
  }

  lemma FirstCompletes(f: Filing, id: string, who: string, b: Bounds, host: Host)
    requires OneApproves(f, id, who, b, host)
    ensures Completes(NewRequest(f, id, {}), who, b, host)
  {
    var r := NewRequest(f, id, {});
    AuthorizeExactly(r, who, host);
    UsesForExactly(f.grant, b);
    ApprovalsNext([], Approve(who, b));
    var taken := WithApproval(r, who, b);
    assert Approvals(taken.decisions) == [Approve(who, b)];
    assert StatedBounds(taken) == [b];
    assert Reduced([b]) == b.lifetime && Fewest([b]) == b.uses by { assert Fewest([b][..0]) == None; }
  }

  /** Filed, approved with the register unwritable, approved again. */
  function LostRun(f: Filing, id: string, who: string, b: Bounds, host: Host): seq<Event>
  {
    [FileEvent(f, false, {}, id, true), ApproveEvent(id, who, b, host, Issues, false), ApproveEvent(id, who, b, host, Issues, true)]
  }

  lemma LostRunStates(f: Filing, id: string, who: string, b: Bounds, host: Host)
    requires OneApproves(f, id, who, b, host) && !f.grant.Record?
    ensures var run := LostRun(f, id, who, b, host);
      && After(run, 1) == State([NewRequest(f, id, {})], {}) && LostAt(run, 1, 0)
      && After(run, 2).doc == After(run, 1).doc
  {
    var run := LostRun(f, id, who, b, host);
    assert After(run, 0) == State([], {});
    assert After(run, 1) == Step(After(run, 0), run[0]).0;
    FirstCompletes(f, id, who, b, host);
    WritesExactly([NewRequest(f, id, {})], {}, 0, who, b, host, Issues, false);
    LostLeavesPending(run, 1, 0);
  }

  /** A capability is issued twice, whatever it is for and whoever decides. */
  lemma CapabilityIssuedTwice(f: Filing, id: string, who: string, b: Bounds, host: Host)
    requires OneApproves(f, id, who, b, host) && f.grant.Capability?
    ensures var run := LostRun(f, id, who, b, host); GrantsAt(run, 1, 0) && GrantsAt(run, 2, 0)
  {
    LostRunStates(f, id, who, b, host);
    LostGrantRepeats(LostRun(f, id, who, b, host), 1, 2, 0);
  }

  /** A consumer's request stays pending beside the grant that was written for it. */
  lemma ConsumerLeftPending(f: Filing, id: string, who: string, b: Bounds, host: Host)
    requires OneApproves(f, id, who, b, host) && f.grant.Consumer?
    ensures var run := LostRun(f, id, who, b, host);
      && GrantsAt(run, 1, 0) && !GrantsAt(run, 2, 0)
      && |After(run, 3).doc| == 1 && After(run, 3).doc[0].status == Pending && f.grant.consumer in After(run, 3).holders
  {
    var run := LostRun(f, id, who, b, host);
    LostRunStates(f, id, who, b, host);
    LostGrantRepeats(run, 1, 2, 0);
    LostLeavesPending(run, 1, 0);
    LostConsumerWaits(run, 1, 3, 0);
    StepExtends(After(run, 2), run[2]);
    HeldLeavesPending(After(run, 2), run[2], 0);
  }

  lemma HeldLeavesPending(s: State, e: Event, i: nat)
    requires i < |s.doc| && e.ApproveEvent? && Find(s.doc, e.id, 0) == Some(i)
    requires Held(s.doc[i].grant, s.holders) && Completes(s.doc[i], e.who, e.bounds, e.host)
    ensures Step(s, e).0.doc == s.doc && Step(s, e).1 == Failed(NotIssued)
  {
  }

  /** Such a request, decider and host. */
  lemma SomeoneApproves() returns (f: Filing, b: Bounds, host: Host)
    ensures f.grant.Capability? && OneApproves(f, "r", "owner-1", b, host)
    ensures OneApproves(f.(grant := Consumer("c")), "r", "owner-1", b.(uses := None), host)
  {
    f := Filing("agent-1", Secret, "resource", "read", "why", "admin", false, None, Capability("p", "t", 60, 1, None), "cli");
    b := Bounds(Seconds(60), Some(1));
    host := Host(map["owner-1" := Recipient("owner", Some("key"))], {"key"});
  }
}
