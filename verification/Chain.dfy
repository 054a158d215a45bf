/** The walk of a server's certificate chain to a trust anchor (x509.rs; section 6.1 of
    RFC 5280). */
module Chain {
  import opened Options
  import opened Words

  type Key = seq<u8>

  /** A certificate, read.  `ca` is None when it is no CA, else how many CA certificates
      may sit below it. */
  datatype Certificate = Certificate(
    issuer: seq<u8>, subject: seq<u8>, notBefore: int, notAfter: int, key: Key,
    ca: Option<nat>, keyCertSign: Option<bool>, serverAuth: Option<bool>, signed: seq<u8>)

  datatype Anchor = Anchor(subject: seq<u8>, key: Key)

  /** What the walk does not decide itself: reading a certificate, checking its signature
      under a key, and whether it names a host. */
  datatype Reader = Reader(
    fromDer: seq<u8> -> Option<Certificate>,
    signedBy: (Certificate, Key) -> bool,
    namesHost: (Certificate, string) -> bool)

  datatype Error =
    | NoCertificate | TooMany(n: nat) | Unreadable(index: nat) | NotYetValid | Expired | NotNamed | NotForServers
    | NotCa | PathTooLong | CannotSign | Altered | Incomplete

  datatype Result<+T> = Ok(value: T) | Err(error: Error)

  const MAX_CHAIN: nat := 9

  // ---- links -----------------------------------------------------------------------------

  /** c is the issuer by name, and its key signed the certificate. */
  predicate Issues(r: Reader, c: Certificate, current: Certificate)
  {
    c.subject == current.issuer && r.signedBy(current, c.key)
  }

  predicate Anchored(r: Reader, anchors: seq<Anchor>, current: Certificate)
  {
    exists a :: a in anchors && a.subject == current.issuer && r.signedBy(current, a.key)
  }

  predicate InDate(c: Certificate, now: int)
  {
    c.notBefore <= now <= c.notAfter
  }

  /** c is in date, a CA with this many below it allowed, and not barred from signing. */
  predicate MayIssue(c: Certificate, now: int, below: nat)
  {
    InDate(c, now) && c.ca.Some? && below <= c.ca.value && c.keyCertSign != Some(false)
  }

  /** Why a certificate may not issue. */
  function Refusal(c: Certificate, now: int, below: nat): (e: Option<Error>)
    ensures e.None? <==> MayIssue(c, now, below)
  {
    if now < c.notBefore then Some(NotYetValid)
    else if now > c.notAfter then Some(Expired)
    else if c.ca.None? then Some(NotCa)
    else if c.ca.value < below then Some(PathTooLong)
    else if c.keyCertSign == Some(false) then Some(CannotSign)
    else None
  }

  /** Certificate i is not used yet and issued the current one. */
  predicate Candidate(r: Reader, certs: seq<Certificate>, used: seq<bool>, current: Certificate, i: nat)
    requires |used| == |certs|
  {
    i < |certs| && !used[i] && Issues(r, certs[i], current)
  }

  /** The first such certificate from i on. */
  function FirstCandidate(r: Reader, certs: seq<Certificate>, used: seq<bool>, current: Certificate, i: nat): (f: Option<nat>)
    requires |used| == |certs| && i <= |certs|
    ensures f.Some? ==> i <= f.value && Candidate(r, certs, used, current, f.value)
    ensures f.Some? ==> forall j :: i <= j < f.value ==> !Candidate(r, certs, used, current, j)
    ensures f.None? ==> forall j :: i <= j ==> !Candidate(r, certs, used, current, j)
    decreases |certs| - i
  {
    if i == |certs| then None
    else if Candidate(r, certs, used, current, i) then Some(i)
    else FirstCandidate(r, certs, used, current, i + 1)
  }

  function Unused(used: seq<bool>): nat
  {
    if used == [] then 0 else Unused(used[1..]) + (if used[0] then 0 else 1)
  }

  lemma {:induction false} UnusedDrops(used: seq<bool>, i: nat)
    requires i < |used| && !used[i]
    ensures Unused(used[i := true]) == Unused(used) - 1
  {
    if i == 0 {
      assert used[0 := true][1..] == used[1..];
    } else {
      assert used[i := true][1..] == used[1..][i - 1 := true];
      UnusedDrops(used[1..], i - 1);
    }
  }

  /** Whether any anchor or sent certificate has the issuer's name. */
  predicate Named(anchors: seq<Anchor>, certs: seq<Certificate>, current: Certificate)
  {
    (exists a :: a in anchors && a.subject == current.issuer) || (exists c :: c in certs && c.subject == current.issuer)
  }

  /** What the walk from the current certificate meets: None when it reaches an anchor. */
  function Walk(r: Reader, anchors: seq<Anchor>, certs: seq<Certificate>, now: int, used: seq<bool>,
        current: Certificate, below: nat): Option<Error>
    requires |used| == |certs|
    decreases Unused(used)
  {
    if Anchored(r, anchors, current) then None
    else
      match FirstCandidate(r, certs, used, current, 0)
      case None => Some(if Named(anchors, certs, current) then Altered else Incomplete)
      case Some(i) =>
        UnusedDrops(used, i);
        match Refusal(certs[i], now, below)
        case Some(e) => Some(e)
        case None => Walk(r, anchors, certs, now, used[i := true], certs[i], below + 1)
  }

  // ---- paths ------------------------------------------------------------------------------------

  /** The certificate k steps up the path. */
  function At(certs: seq<Certificate>, current: Certificate, path: seq<nat>, k: nat): Certificate
    requires k <= |path|
  {
    if k == 0 || path[k - 1] >= |certs| then current else certs[path[k - 1]]
  }

  /** Step k of the path: a sent certificate, not used before, that issued the one before
      it and was allowed to. */
  predicate LinkAt(r: Reader, certs: seq<Certificate>, now: int, used: seq<bool>, current: Certificate, below: nat,
        path: seq<nat>, k: nat)
    requires |used| == |certs| && k < |path|
  {
    && path[k] < |certs| && !used[path[k]]
    && Issues(r, certs[path[k]], At(certs, current, path, k)) && MayIssue(certs[path[k]], now, below + k)
  }

  ghost predicate Links(r: Reader, certs: seq<Certificate>, now: int, used: seq<bool>, current: Certificate, below: nat,
        path: seq<nat>)
    requires |used| == |certs|
  {
    forall k {:trigger LinkAt(r, certs, now, used, current, below, path, k)} :: 0 <= k < |path| ==>
      LinkAt(r, certs, now, used, current, below, path, k)
  }

  predicate Distinct(path: seq<nat>)
  {
    forall j, k :: 0 <= j < k < |path| ==> path[j] != path[k]
  }

  /** Distinct certificates, each the issuer of the one before it and allowed to be, the
      last of them issued by an anchor. */
  ghost predicate Path(r: Reader, anchors: seq<Anchor>, certs: seq<Certificate>, now: int, used: seq<bool>,
        current: Certificate, below: nat, path: seq<nat>)
    requires |used| == |certs|
  {
    && Links(r, certs, now, used, current, below, path) && Distinct(path)
    && Anchored(r, anchors, At(certs, current, path, |path|))
  }

  lemma PathPush(r: Reader, anchors: seq<Anchor>, certs: seq<Certificate>, now: int, used: seq<bool>,
        current: Certificate, below: nat, i: nat, path: seq<nat>)
    requires |used| == |certs| && Candidate(r, certs, used, current, i) && MayIssue(certs[i], now, below)
    requires Path(r, anchors, certs, now, used[i := true], certs[i], below + 1, path)
    ensures Path(r, anchors, certs, now, used, current, below, [i] + path)
  {
    var all, used' := [i] + path, used[i := true];
    forall k | 0 <= k < |all| ensures LinkAt(r, certs, now, used, current, below, all, k) {
      if k > 0 {
        assert LinkAt(r, certs, now, used', certs[i], below + 1, path, k - 1);
        if k > 1 { assert LinkAt(r, certs, now, used', certs[i], below + 1, path, k - 2); }
        AtPushed(certs, current, i, path, k - 1);
      }
    }
    forall j, k | 0 <= j < k < |all| ensures all[j] != all[k] {
      assert LinkAt(r, certs, now, used', certs[i], below + 1, path, k - 1);
    }
    if path != [] { assert LinkAt(r, certs, now, used', certs[i], below + 1, path, |path| - 1); }
    AtPushed(certs, current, i, path, |path|);
  }

  lemma AtPushed(certs: seq<Certificate>, current: Certificate, i: nat, path: seq<nat>, k: nat)
    requires i < |certs| && k <= |path| && (k > 0 ==> path[k - 1] < |certs|)
    ensures At(certs, current, [i] + path, k + 1) == At(certs, certs[i], path, k)
  {
  }

  lemma PathPop(r: Reader, anchors: seq<Anchor>, certs: seq<Certificate>, now: int, used: seq<bool>,
        current: Certificate, below: nat, i: nat, path: seq<nat>)
    requires |used| == |certs| && Path(r, anchors, certs, now, used, current, below, [i] + path)
    ensures Candidate(r, certs, used, current, i) && MayIssue(certs[i], now, below)
    ensures Path(r, anchors, certs, now, used[i := true], certs[i], below + 1, path)
  {
    var all, used' := [i] + path, used[i := true];
    var next := below + 1;
    assert LinkAt(r, certs, now, used, current, below, all, 0);
    forall k | 0 <= k < |path| ensures LinkAt(r, certs, now, used', certs[i], next, path, k) {
      assert LinkAt(r, certs, now, used, current, below, all, k + 1);
      assert all[0] != all[k + 1];
      if k > 0 { assert LinkAt(r, certs, now, used, current, below, all, k); }
      AtPushed(certs, current, i, path, k);
    }
    DistinctTail(i, path);
    if path != [] { assert LinkAt(r, certs, now, used', certs[i], below + 1, path, |path| - 1); }
    AtPushed(certs, current, i, path, |path|);
  }

  lemma DistinctTail(i: nat, path: seq<nat>)
    requires Distinct([i] + path)
    ensures Distinct(path)
  {
    var all := [i] + path;
    assert forall k {:trigger path[k]} :: 0 <= k < |path| ==> path[k] == all[k + 1];
  }

  /** Step k of the path is taken from a certificate that is not anchored, to the first of
      its issuers not used before. */
  predicate FirstAt(r: Reader, anchors: seq<Anchor>, certs: seq<Certificate>, used: seq<bool>, current: Certificate,
        path: seq<nat>, k: nat)
    requires |used| == |certs| && k < |path|
  {
    && !Anchored(r, anchors, At(certs, current, path, k))
    && forall i {:trigger certs[i]} :: 0 <= i < |certs| && i < path[k] && !used[i] && i !in path[..k] ==>
      !Issues(r, certs[i], At(certs, current, path, k))
  }

  ghost predicate InOrder(r: Reader, anchors: seq<Anchor>, certs: seq<Certificate>, used: seq<bool>, current: Certificate,
        path: seq<nat>)
    requires |used| == |certs|
  {
    forall k {:trigger FirstAt(r, anchors, certs, used, current, path, k)} :: 0 <= k < |path| ==>
      FirstAt(r, anchors, certs, used, current, path, k)
  }

  lemma InOrderPush(r: Reader, anchors: seq<Anchor>, certs: seq<Certificate>, used: seq<bool>, current: Certificate,
        i: nat, path: seq<nat>)
    requires |used| == |certs| && !Anchored(r, anchors, current) && FirstCandidate(r, certs, used, current, 0) == Some(i)
    requires InOrder(r, anchors, certs, used[i := true], certs[i], path)
    requires forall k :: 0 <= k < |path| ==> path[k] < |certs|
    ensures InOrder(r, anchors, certs, used, current, [i] + path)
  {
    var all := [i] + path;
    forall k | 0 <= k < |all| ensures FirstAt(r, anchors, certs, used, current, all, k) {
      if k > 0 {
        assert FirstAt(r, anchors, certs, used[i := true], certs[i], path, k - 1);
        AtPushed(certs, current, i, path, k - 1);
        assert all[..k] == [i] + path[..k - 1];
      } else {
        assert forall x {:trigger certs[x]} :: 0 <= x < i && !used[x] ==> !Candidate(r, certs, used, current, x);
      }
    }
  }

  lemma {:induction false} NoneBefore(r: Reader, certs: seq<Certificate>, used: seq<bool>, current: Certificate, i: nat, j: nat)
    requires |used| == |certs| && j <= i && Candidate(r, certs, used, current, i)
    requires forall x {:trigger certs[x]} :: j <= x < i && !used[x] ==> !Issues(r, certs[x], current)
    ensures FirstCandidate(r, certs, used, current, j) == Some(i)
    decreases i - j
  {
    if j < i {
      assert !Candidate(r, certs, used, current, j);
      NoneBefore(r, certs, used, current, i, j + 1);
    }
  }

  lemma InOrderPop(r: Reader, anchors: seq<Anchor>, certs: seq<Certificate>, used: seq<bool>, current: Certificate,
        i: nat, path: seq<nat>)
    requires |used| == |certs| && Candidate(r, certs, used, current, i)
    requires InOrder(r, anchors, certs, used, current, [i] + path)
    requires forall k :: 0 <= k < |path| ==> path[k] < |certs|
    ensures !Anchored(r, anchors, current) && FirstCandidate(r, certs, used, current, 0) == Some(i)
    ensures InOrder(r, anchors, certs, used[i := true], certs[i], path)
  {
    var all := [i] + path;
    assert FirstAt(r, anchors, certs, used, current, all, 0);
    var used', next := used[i := true], certs[i];
    NoneBefore(r, certs, used, current, i, 0);
    forall k | 0 <= k < |path| ensures FirstAt(r, anchors, certs, used', next, path, k) {
      assert FirstAt(r, anchors, certs, used, current, all, k + 1);
      AtPushed(certs, current, i, path, k);
      assert all[..k + 1] == [i] + path[..k];
    }
  }

  lemma PathInRange(r: Reader, anchors: seq<Anchor>, certs: seq<Certificate>, now: int, used: seq<bool>,
        current: Certificate, below: nat, path: seq<nat>)
    requires |used| == |certs| && Path(r, anchors, certs, now, used, current, below, path)
    ensures forall k :: 0 <= k < |path| ==> path[k] < |certs|
  {
    forall k | 0 <= k < |path| ensures path[k] < |certs| {
      assert LinkAt(r, certs, now, used, current, below, path, k);
    }
  }

  /** A walk that reaches an anchor went along a path, by the first issuer every time. */
  lemma {:induction false} WalkFindsPath(r: Reader, anchors: seq<Anchor>, certs: seq<Certificate>, now: int, used: seq<bool>,
        current: Certificate, below: nat) returns (path: seq<nat>)
    requires |used| == |certs| && Walk(r, anchors, certs, now, used, current, below).None?
    ensures Path(r, anchors, certs, now, used, current, below, path) && InOrder(r, anchors, certs, used, current, path)
    decreases Unused(used)
  {
    if Anchored(r, anchors, current) {
      path := [];
    } else {
      var i := FirstCandidate(r, certs, used, current, 0).value;
      UnusedDrops(used, i);
      var rest := WalkFindsPath(r, anchors, certs, now, used[i := true], certs[i], below + 1);
      PathInRange(r, anchors, certs, now, used[i := true], certs[i], below + 1, rest);
      PathPush(r, anchors, certs, now, used, current, below, i, rest);
      InOrderPush(r, anchors, certs, used, current, i, rest);
      path := [i] + rest;
    }
  }

  /** And every such path is walked. */
  lemma {:induction false} InOrderIsWalked(r: Reader, anchors: seq<Anchor>, certs: seq<Certificate>, now: int, used: seq<bool>,
        current: Certificate, below: nat, path: seq<nat>)
    requires |used| == |certs| && Path(r, anchors, certs, now, used, current, below, path)
    requires InOrder(r, anchors, certs, used, current, path)
    ensures Walk(r, anchors, certs, now, used, current, below).None?
    decreases |path|
  {
    if path != [] {
      var i, rest := path[0], path[1..];
      assert path == [i] + rest;
      PathInRange(r, anchors, certs, now, used, current, below, path);
      PathPop(r, anchors, certs, now, used, current, below, i, rest);
      InOrderPop(r, anchors, certs, used, current, i, rest);
      UnusedDrops(used, i);
      InOrderIsWalked(r, anchors, certs, now, used[i := true], certs[i], below + 1, rest);
    }
  }

  /** At most one sent certificate is the issuer of each. */
  ghost predicate Unambiguous(r: Reader, certs: seq<Certificate>, leaf: Certificate)
  {
    forall i, j, c {:trigger Issues(r, certs[i], c), Issues(r, certs[j], c)} ::
      (0 <= i < |certs| && 0 <= j < |certs| && (c == leaf || c in certs)
       && Issues(r, certs[i], c) && Issues(r, certs[j], c)) ==> i == j
  }

  /** When issuers are unambiguous, a walk finds any path there is. */
  lemma {:induction false} PathIsWalked(r: Reader, anchors: seq<Anchor>, certs: seq<Certificate>, now: int, used: seq<bool>,
        leaf: Certificate, current: Certificate, below: nat, path: seq<nat>)
    requires |used| == |certs| && Unambiguous(r, certs, leaf) && (current == leaf || current in certs)
    requires Path(r, anchors, certs, now, used, current, below, path)
    ensures Walk(r, anchors, certs, now, used, current, below).None?
    decreases |path|
  {
    if !Anchored(r, anchors, current) {
      assert path != [];
      var i, rest := path[0], path[1..];
      assert path == [i] + rest;
      PathPop(r, anchors, certs, now, used, current, below, i, rest);
      OnlyCandidate(r, certs, used, leaf, current, i);
      UnusedDrops(used, i);
      PathIsWalked(r, anchors, certs, now, used[i := true], leaf, certs[i], below + 1, rest);
    }
  }

  lemma OnlyCandidate(r: Reader, certs: seq<Certificate>, used: seq<bool>, leaf: Certificate, current: Certificate, i: nat)
    requires |used| == |certs| && Unambiguous(r, certs, leaf) && (current == leaf || current in certs)
    requires Candidate(r, certs, used, current, i)
    ensures FirstCandidate(r, certs, used, current, 0) == Some(i)
  {
    var f := FirstCandidate(r, certs, used, current, 0);
    assert Issues(r, certs[i], current) && Issues(r, certs[f.value], current);
  }

  // ---- the whole check -----------------------------------------------------------------------------

  /** What is asked of the leaf alone. */
  function LeafRefusal(r: Reader, leaf: Certificate, host: string, now: int): (e: Option<Error>)
    ensures e.None? <==> InDate(leaf, now) && r.namesHost(leaf, host) && leaf.serverAuth != Some(false)
  {
    if now < leaf.notBefore then Some(NotYetValid)
    else if now > leaf.notAfter then Some(Expired)
    else if !r.namesHost(leaf, host) then Some(NotNamed)
    else if leaf.serverAuth == Some(false) then Some(NotForServers)
    else None
  }

  /** All certificates read, or the place of the first that cannot be. */
  function ReadAll(r: Reader, ders: seq<seq<u8>>, n: nat): Result<seq<Certificate>>
    requires n <= |ders|
  {
    if n == 0 then Ok([])
    else
      match ReadAll(r, ders, n - 1)
      case Err(e) => Err(e)
      case Ok(certs) =>
        match r.fromDer(ders[n - 1])
        case None => Err(Unreadable(n))
        case Some(c) => Ok(certs + [c])
  }

  lemma {:induction false} ReadAllLength(r: Reader, ders: seq<seq<u8>>, n: nat)
    requires n <= |ders| && ReadAll(r, ders, n).Ok?
    ensures |ReadAll(r, ders, n).value| == n
    ensures forall i :: 0 <= i < n ==> r.fromDer(ders[i]) == Some(ReadAll(r, ders, n).value[i])
  {
    if n > 0 { ReadAllLength(r, ders, n - 1); }
  }

  lemma {:induction false} ReadAllFails(r: Reader, ders: seq<seq<u8>>, m: nat, n: nat)
    requires m <= n <= |ders| && ReadAll(r, ders, m).Err?
    ensures ReadAll(r, ders, n) == ReadAll(r, ders, m)
  {
    if m < n { ReadAllFails(r, ders, m, n - 1); }
  }

  function Nothing(n: nat): (u: seq<bool>)
    ensures |u| == n
  {
    seq(n, i => false)
  }

  function Verified(r: Reader, chain: seq<seq<u8>>, anchors: seq<Anchor>, host: string, now: int): Result<Key>
  {
    if chain == [] then Err(NoCertificate)
    else if |chain| > MAX_CHAIN then Err(TooMany(|chain|))
    else
      match r.fromDer(chain[0])
      case None => Err(Unreadable(0))
      case Some(leaf) =>
        match LeafRefusal(r, leaf, host, now)
        case Some(e) => Err(e)
        case None =>
          match ReadAll(r, chain[1..], |chain| - 1)
          case Err(e) => Err(e)
          case Ok(certs) =>
            match Walk(r, anchors, certs, now, Nothing(|certs|), leaf, 0)
            case Some(e) => Err(e)
            case None => Ok(leaf.key)
  }

  /** A chain the leaf is acceptable in and a path leads from it to an anchor through the
      certificates sent. */
  ghost predicate Trusted(r: Reader, chain: seq<seq<u8>>, anchors: seq<Anchor>, host: string, now: int,
        leaf: Certificate, certs: seq<Certificate>, path: seq<nat>)
  {
    && 1 <= |chain| <= MAX_CHAIN && |certs| == |chain| - 1
    && r.fromDer(chain[0]) == Some(leaf) && (forall i :: 0 <= i < |certs| ==> r.fromDer(chain[1 + i]) == Some(certs[i]))
    && InDate(leaf, now) && r.namesHost(leaf, host) && leaf.serverAuth != Some(false)
    && Path(r, anchors, certs, now, Nothing(|certs|), leaf, 0, path)
  }

  /** A trusted chain whose path takes the first unused issuer of a certificate every time,
      and passes no anchored certificate. */
  ghost predicate TrustedInOrder(r: Reader, chain: seq<seq<u8>>, anchors: seq<Anchor>, host: string, now: int,
        leaf: Certificate, certs: seq<Certificate>, path: seq<nat>)
  {
    && Trusted(r, chain, anchors, host, now, leaf, certs, path)
    && InOrder(r, anchors, certs, Nothing(|certs|), leaf, path)
  }

  /** A key is answered only for a chain with a path, and it is the leaf's. */
  lemma VerifiedIsTrusted(r: Reader, chain: seq<seq<u8>>, anchors: seq<Anchor>, host: string, now: int)
    returns (leaf: Certificate, certs: seq<Certificate>, path: seq<nat>)
    requires Verified(r, chain, anchors, host, now).Ok?
    ensures TrustedInOrder(r, chain, anchors, host, now, leaf, certs, path)
    ensures Verified(r, chain, anchors, host, now) == Ok(leaf.key)
  {
    leaf := r.fromDer(chain[0]).value;
    certs := ReadAll(r, chain[1..], |chain| - 1).value;
    ReadAllLength(r, chain[1..], |chain| - 1);
    path := WalkFindsPath(r, anchors, certs, now, Nothing(|certs|), leaf, 0);
  }

  /** Exactly the chains with such a path verify. */
  lemma VerifiedExactly(r: Reader, chain: seq<seq<u8>>, anchors: seq<Anchor>, host: string, now: int)
    ensures Verified(r, chain, anchors, host, now).Ok? <==>
      exists leaf, certs, path :: TrustedInOrder(r, chain, anchors, host, now, leaf, certs, path)
  {
    if Verified(r, chain, anchors, host, now).Ok? {
      var leaf, certs, path := VerifiedIsTrusted(r, chain, anchors, host, now);
    }
    forall leaf, certs, path | TrustedInOrder(r, chain, anchors, host, now, leaf, certs, path)
      ensures Verified(r, chain, anchors, host, now).Ok?
    {
      InOrderIsWalked(r, anchors, certs, now, Nothing(|certs|), leaf, 0, path);
      WalkedIsVerified(r, chain, anchors, host, now, leaf, certs, path);
    }
  }

  lemma WalkedIsVerified(r: Reader, chain: seq<seq<u8>>, anchors: seq<Anchor>, host: string, now: int,
        leaf: Certificate, certs: seq<Certificate>, path: seq<nat>)
    requires Trusted(r, chain, anchors, host, now, leaf, certs, path)
    ensures Verified(r, chain, anchors, host, now)
      == match Walk(r, anchors, certs, now, Nothing(|certs|), leaf, 0) { case Some(e) => Err(e) case None => Ok(leaf.key) }
  {
    AllRead(r, chain[1..], certs, |certs|);
    assert certs[..|certs|] == certs;
  }

  /** And for every such chain, when at most one sent certificate is the issuer of each. */
  lemma TrustedIsVerified(r: Reader, chain: seq<seq<u8>>, anchors: seq<Anchor>, host: string, now: int,
        leaf: Certificate, certs: seq<Certificate>, path: seq<nat>)
    requires Trusted(r, chain, anchors, host, now, leaf, certs, path) && Unambiguous(r, certs, leaf)
    ensures Verified(r, chain, anchors, host, now) == Ok(leaf.key)
  {
    WalkedIsVerified(r, chain, anchors, host, now, leaf, certs, path);
    PathIsWalked(r, anchors, certs, now, Nothing(|certs|), leaf, leaf, 0, path);
  }

  lemma {:induction false} AllRead(r: Reader, ders: seq<seq<u8>>, certs: seq<Certificate>, n: nat)
    requires n <= |ders| == |certs| && forall i :: 0 <= i < |certs| ==> r.fromDer(ders[i]) == Some(certs[i])
    ensures ReadAll(r, ders, n) == Ok(certs[..n])
  {
    if n > 0 {
      AllRead(r, ders, certs, n - 1);
      assert certs[..n] == certs[..n - 1] + [certs[n - 1]];
    }
  }

  /** The walk from a certificate to the first of two issuers of one name and key, from
      which no way leads on. */
  lemma LedAstray(r: Reader, anchors: seq<Anchor>, certs: seq<Certificate>, leaf: Certificate, astray: Certificate, now: int)
    requires |certs| == 2 && certs[0] == astray && Issues(r, astray, leaf) && MayIssue(astray, now, 0)
    requires !Anchored(r, anchors, leaf) && !Named(anchors, certs, astray)
    ensures Walk(r, anchors, certs, now, Nothing(2), leaf, 0) == Some(Incomplete)
  {
    var used := Nothing(2);
    assert Candidate(r, certs, used, leaf, 0);
    assert FirstCandidate(r, certs, used, leaf, 0) == Some(0);
    UnusedDrops(used, 0);
    var next := used[0 := true];
    assert !Anchored(r, anchors, astray);
    assert FirstCandidate(r, certs, next, astray, 0) == None;
    assert Walk(r, anchors, certs, now, next, astray, 1) == Some(Incomplete);
  }

  /** Without that, a chain with a path can be refused: the walk takes the first of two
      certificates of one name and key, and does not come back for the second. */
  lemma FirstIssuerHidesSecond() returns (r: Reader, chain: seq<seq<u8>>, anchors: seq<Anchor>, leaf: Certificate,
        certs: seq<Certificate>, path: seq<nat>)
    ensures Trusted(r, chain, anchors, "host", 0, leaf, certs, path)
    ensures Verified(r, chain, anchors, "host", 0) == Err(Incomplete)
  {
    leaf := Certificate([1], [0], 0, 0, [], None, None, None, []);
    var astray := Certificate([2], [1], 0, 0, [], Some(0), None, None, []);
    var good := astray.(issuer := [3]);
    var d0, d1, d2: seq<u8> := [0], [1], [2];
    r := Reader(d => if d == d0 then Some(leaf) else if d == d1 then Some(astray) else if d == d2 then Some(good) else None,
                (c, k) => true, (c, h) => true);
    chain, anchors, certs, path := [d0, d1, d2], [Anchor([3], [])], [astray, good], [1];
    assert LinkAt(r, certs, 0, Nothing(2), leaf, 0, path, 0);
    assert anchors[0].subject == [3] && anchors[0] in anchors;
    assert Path(r, anchors, certs, 0, Nothing(2), leaf, 0, path);
    LedAstray(r, anchors, certs, leaf, astray, 0);
    WalkedIsVerified(r, chain, anchors, "host", 0, leaf, certs, path);
  }

  /** The certificates after the leaf, all of them read before the walk begins. */
  method ReadIntermediates(r: Reader, ders: seq<seq<u8>>) returns (certs: Result<seq<Certificate>>)
    ensures certs == ReadAll(r, ders, |ders|)
  {
    var read: seq<Certificate> := [];
    for i := 0 to |ders|
      invariant ReadAll(r, ders, i) == Ok(read)
    {
      var c := r.fromDer(ders[i]);
      if c.None? {
        ReadAllFails(r, ders, i + 1, |ders|);
        return Err(Unreadable(i + 1));
      }
      read := read + [c.value];
    }
    certs := Ok(read);
  }

  /** From issuer to issuer, each sent certificate at most once. */
  method WalkUp(r: Reader, anchors: seq<Anchor>, certs: seq<Certificate>, now: int, leaf: Certificate) returns (e: Option<Error>)
    ensures e == Walk(r, anchors, certs, now, Nothing(|certs|), leaf, 0)
  {
    var used := Nothing(|certs|);
    var current, below := leaf, 0;
    while true
      invariant |used| == |certs|
      invariant Walk(r, anchors, certs, now, used, current, below) == Walk(r, anchors, certs, now, Nothing(|certs|), leaf, 0)
      decreases Unused(used)
    {
      if Anchored(r, anchors, current) {
        return None;
      }
      var found := FirstCandidate(r, certs, used, current, 0);
      if found.None? {
        return Some(if Named(anchors, certs, current) then Altered else Incomplete);
      }
      var i := found.value;
      var refused := Refusal(certs[i], now, below);
      if refused.Some? {
        return refused;
      }
      UnusedDrops(used, i);
      used := used[i := true];
      below := below + 1;
      current := certs[i];
    }
  }

  /** The leaf's key, when the chain leads to an anchor. */
  method VerifyServerChain(r: Reader, chain: seq<seq<u8>>, anchors: seq<Anchor>, host: string, now: int) returns (k: Result<Key>)
    ensures k == Verified(r, chain, anchors, host, now)
  {
    if chain == [] {
      return Err(NoCertificate);
    }
    if |chain| > MAX_CHAIN {
      return Err(TooMany(|chain|));
    }
    var leaf := r.fromDer(chain[0]);
    if leaf.None? {
      return Err(Unreadable(0));
    }
    var refused := LeafRefusal(r, leaf.value, host, now);
    if refused.Some? {
      return Err(refused.value);
    }
    var certs := ReadIntermediates(r, chain[1..]);
    if certs.Err? {
      return Err(certs.error);
    }
    ReadAllLength(r, chain[1..], |chain| - 1);
    var e := WalkUp(r, anchors, certs.value, now, leaf.value);
    k := if e.Some? then Err(e.value) else Ok(leaf.value.key);
  }
}
