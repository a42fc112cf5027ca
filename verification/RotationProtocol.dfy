/** The bootstrap and rotation handlers over a shared registry (signing-service/src/main.rs).
    A rotation reads the current owner in one transaction and swaps it in another, so any
    number of handlers can be in flight with stale snapshots. */
module RotationProtocol {
  import opened Bytes
  import opened CanonicalEncoding
  import opened Keyring
  import opened SigningMessages
  import opened SigningInputs
  import opened OwnerRegistry
  import TextCodecs

  datatype RotateRequest = RotateRequest(
    orgId: OrgId, replacementB64: bytes, signedAt: bytes, reason: bytes,
    signingPubkeyB64: bytes, signatureB64: bytes)

  /** What the handlers take from outside: the clock format, the signature scheme, which
      32-byte strings are keys, and which texts are blank after trimming. */
  datatype Env = Env(times: TimeFormat, verify: Verifier, isKey: Key -> bool, isBlank: bytes -> bool)

  /** A rotation between its read and its swap. */
  datatype Pending = Pending(directive: Directive, signature: bytes64, expected: Key)

  /** The registry, the handlers in flight, and for each event the rotation that caused
      it (a history variable: no step reads it). */
  datatype System = System(db: Db, pending: map<nat, Pending>, causes: seq<Option<Pending>>)

  datatype Action =
    | BootstrapOrg(orgId: OrgId, key: Key, now: int)
    | ReadOwner(id: nat, request: RotateRequest)
    | SwapOwner(id: nat, now: int)
    | Abandon(id: nat)

  function DecodeKey(env: Env, text: bytes): Option<Key> {
    var b := TextCodecs.Base64Decode(text);
    if b.Some? && |b.value| == 32 && env.isKey(b.value) then Some(b.value) else None
  }

  function DecodeSignature64(text: bytes): Option<bytes64> {
    var b := TextCodecs.Base64Decode(text);
    if b.Some? && |b.value| == 64 then Some(b.value) else None
  }

  /** The authority check: the signer is the current owner, or the replacement already is. */
  predicate AuthorityIsCurrentOrReplay(current: Key, signer: Key, replacement: Key) {
    signer == current || replacement == current
  }

  /** Everything the handler does before the swap, given the owner it read. None when it
      answers with an error. */
  function Prepare(env: Env, request: RotateRequest, current: Option<OwnerRecord>): Option<Pending> {
    if env.isBlank(request.reason) || current.None? then None
    else
      var signer, replacement := DecodeKey(env, request.signingPubkeyB64), DecodeKey(env, request.replacementB64);
      if signer.None? || replacement.None? then None
      else if !AuthorityIsCurrentOrReplay(current.value.ownerPubkey, signer.value, replacement.value) then None
      else
        var signature := DecodeSignature64(request.signatureB64);
        var directive := Directive(request.orgId, signer.value, replacement.value, request.signedAt, request.reason);
        if signature.None? || !AllFit(DirectiveRecords(directive)) then None
        else if !env.verify(signer.value, Encode(DirectiveRecords(directive)), signature.value) then None
        else Some(Pending(directive, signature.value, current.value.ownerPubkey))
  }

  function Initial(): System {
    System(Db(map[], []), map[], [])
  }

  /** The causes after a step: one more entry exactly when the step added an event. */
  function Attribute(before: System, db: Db, cause: Option<Pending>): seq<Option<Pending>> {
    if |db.events| > |before.db.events| then before.causes + [cause] else before.causes
  }

  /** The handler passes the key it read, not the signer, as the expected owner. */
  function Swap(env: Env, db: Db, p: Pending, now: int): (Db, Result<OwnerRecord, StoreError>) {
    RotateOwner(env.times, db, p.directive.orgId, p.expected, p.directive.replacement, now)
  }

  function Step(env: Env, s: System, a: Action): System {
    match a
    case BootstrapOrg(org, key, now) =>
      var db := BootstrapOwner(env.times, s.db, org, key, now).0;
      s.(db := db, causes := Attribute(s, db, None))
    case ReadOwner(id, request) =>
      var current := GetOwner(env.times, s.db, request.orgId);
      var p := if current.Ok? then Prepare(env, request, current.value) else None;
      if id in s.pending || p.None? then s else s.(pending := s.pending[id := p.value])
    case SwapOwner(id, now) =>
      if id !in s.pending then s
      else
        var p := s.pending[id];
        var db := Swap(env, s.db, p, now).0;
        System(db, s.pending - {id}, Attribute(s, db, Some(p)))
    case Abandon(id) => s.(pending := s.pending - {id})
  }

  function Run(env: Env, actions: seq<Action>): System {
    if actions == [] then Initial()
    else Step(env, Run(env, actions[..|actions| - 1]), actions[|actions| - 1])
  }

  /** One handler on its own: the read and the swap without a step in between. None is
      an error answer. */
  method HandleRotateOwner(env: Env, store: OwnerStore, request: RotateRequest, now: int)
    returns (r: Option<OwnerRecord>)
    requires store.times == env.times
    modifies store
    ensures var current := GetOwner(env.times, old(store.State()), request.orgId);
            var p := if current.Ok? then Prepare(env, request, current.value) else None;
            if p.None? then store.State() == old(store.State()) && r.None?
            else
              var (after, outcome) := Swap(env, old(store.State()), p.value, now);
              store.State() == after && r == if outcome.Ok? then Some(outcome.value) else None
  {
    var current := store.Get(request.orgId);
    if current.Err? {
      return None;
    }
    var prepared := Prepare(env, request, current.value);
    if prepared.None? {
      return None;
    }
    var directive := prepared.value.directive;
    var outcome := store.Rotate(directive.orgId, prepared.value.expected, directive.replacement, now);
    match outcome
    case Ok(record) => return Some(record);
    case Err(_) => return None;
  }

  // ------------------------------------------------------------ what steps keep

  /** A prepared rotation passed the authority and signature checks. */
  ghost predicate Checked(env: Env, p: Pending) {
    && AuthorityIsCurrentOrReplay(p.expected, p.directive.revoked, p.directive.replacement)
    && AllFit(DirectiveRecords(p.directive))
    && env.verify(p.directive.revoked, Encode(DirectiveRecords(p.directive)), p.signature)
  }

  /** Event `i` has its custody: a bootstrap starts the organisation's history; a rotation
      was committed by a request whose verified signer is the owner of the event before it
      and whose directive names the organisation, that owner and the replacement. */
  ghost predicate Custody(env: Env, db: Db, causes: seq<Option<Pending>>, i: nat)
    requires i < |db.events| && |causes| == |db.events|
  {
    var e := db.events[i];
    var before := EventsOf(db.events[..i], e.orgId);
    match e.kind
    case Bootstrap => before == [] && e.version == 1
    case Rotation =>
      && before != [] && before[|before| - 1].version + 1 == e.version
      && causes[i].Some? && Checked(env, causes[i].value)
      && causes[i].value.directive.orgId == e.orgId
      && causes[i].value.directive.revoked == before[|before| - 1].ownerPubkey
      && causes[i].value.directive.replacement == e.ownerPubkey
      && causes[i].value.expected == before[|before| - 1].ownerPubkey
  }

  ghost predicate SystemInvariant(env: Env, s: System) {
    && Invariant(env.times, s.db)
    && |s.causes| == |s.db.events|
    && (forall id :: id in s.pending ==> Checked(env, s.pending[id]))
    && (forall i :: 0 <= i < |s.db.events| ==> Custody(env, s.db, s.causes, i))
  }

  /** A rotation that was let through only because its replacement is the current owner
      is always refused by the store. */
  lemma ReplayBranchNeverCommits(env: Env, db: Db, p: Pending, now: int)
    requires p.directive.replacement == p.expected
    ensures Swap(env, db, p, now).0 == db && Swap(env, db, p, now).1.Err?
  {
  }

  /** The handler goes on to the swap exactly when the reason is not blank, there is an owner,
      keys and signature decode, and authority and signature hold for the directive that is
      built from the request. */
  lemma PreparedExactly(env: Env, request: RotateRequest, current: Option<OwnerRecord>, p: Pending)
    ensures Prepare(env, request, current) == Some(p) <==>
            && !env.isBlank(request.reason)
            && current.Some? && p.expected == current.value.ownerPubkey
            && p.directive.orgId == request.orgId
            && p.directive.signedAt == request.signedAt && p.directive.reason == request.reason
            && DecodeKey(env, request.signingPubkeyB64) == Some(p.directive.revoked)
            && DecodeKey(env, request.replacementB64) == Some(p.directive.replacement)
            && DecodeSignature64(request.signatureB64) == Some(p.signature)
            && Checked(env, p)
  {
    var made := Prepare(env, request, current);
    if made.Some? {
      assert Checked(env, made.value);
    }
  }

  /** Without a step in between, a prepared rotation succeeds exactly when the replacement is not
      the current owner; then the current owner signed it, and one event is added. */
  lemma UninterruptedRotation(env: Env, db: Db, request: RotateRequest, now: int)
    requires RoundTrips(env.times) && Invariant(env.times, db)
    requires GetOwner(env.times, db, request.orgId).Ok?
    requires Prepare(env, request, GetOwner(env.times, db, request.orgId).value).Some?
    ensures var p := Prepare(env, request, GetOwner(env.times, db, request.orgId).value).value;
            var (after, r) := Swap(env, db, p, now);
            && (r.Ok? <==> p.directive.replacement != p.expected)
            && (r.Ok? ==> p.directive.revoked == p.expected
                          && |EventsOf(after.events, request.orgId)| == |EventsOf(db.events, request.orgId)| + 1
                          && GetOwner(env.times, after, request.orgId).Ok?
                          && GetOwner(env.times, after, request.orgId).value.Some?
                          && GetOwner(env.times, after, request.orgId).value.value.ownerPubkey
                             == p.directive.replacement)
            && (r.Err? ==> after == db)
  {
    var p := Prepare(env, request, GetOwner(env.times, db, request.orgId).value).value;
    var (after, r) := Swap(env, db, p, now);
    GetOwnerEffect(env.times, db, request.orgId);
    RotateEffect(env.times, db, request.orgId, p.expected, p.directive.replacement, now);
    RotateKeepsInvariant(env.times, db, request.orgId, p.expected, p.directive.replacement, now);
    GetOwnerEffect(env.times, after, request.orgId);
  }

  lemma PreparedIsChecked(env: Env, request: RotateRequest, current: Option<OwnerRecord>)
    ensures Prepare(env, request, current).Some? ==> Checked(env, Prepare(env, request, current).value)
  {
  }

  /** Earlier events keep their custody when an event is added. */
  lemma CustodyKept(env: Env, db: Db, causes: seq<Option<Pending>>, after: Db, cause: Option<Pending>, i: nat)
    requires i < |db.events| == |causes| && Custody(env, db, causes, i)
    requires |after.events| == |db.events| + 1 && after.events[..|db.events|] == db.events
    ensures Custody(env, after, causes + [cause], i)
  {
    assert after.events[..i] == after.events[..|db.events|][..i] == db.events[..i];
    assert after.events[i] == after.events[..|db.events|][i];
  }

  lemma BootstrapKeepsSystem(env: Env, s: System, org: OrgId, key: Key, now: int)
    requires RoundTrips(env.times) && SystemInvariant(env, s)
    ensures SystemInvariant(env, Step(env, s, BootstrapOrg(org, key, now)))
  {
    var t := Step(env, s, BootstrapOrg(org, key, now));
    BootstrapKeepsInvariant(env.times, s.db, org, key, now);
    BootstrapEffect(env.times, s.db, org, key, now);
    if |t.db.events| > |s.db.events| {
      var n := |s.db.events|;
      assert t.db.events[..n] == s.db.events;
      forall i | 0 <= i < |t.db.events| ensures Custody(env, t.db, t.causes, i) {
        if i < n {
          CustodyKept(env, s.db, s.causes, t.db, None, i);
        }
      }
    }
  }

  lemma SwapKeepsSystem(env: Env, s: System, id: nat, now: int)
    requires RoundTrips(env.times) && SystemInvariant(env, s) && id in s.pending
    ensures SystemInvariant(env, Step(env, s, SwapOwner(id, now)))
  {
    var p, t := s.pending[id], Step(env, s, SwapOwner(id, now));
    var org, replacement := p.directive.orgId, p.directive.replacement;
    RotateKeepsInvariant(env.times, s.db, org, p.expected, replacement, now);
    RotateEffect(env.times, s.db, org, p.expected, replacement, now);
    if |t.db.events| > |s.db.events| {
      var n := |s.db.events|;
      assert t.db.events[..n] == s.db.events;
      assert OrgInvariant(env.times, s.db, org);
      assert Checked(env, p);
      assert Custody(env, t.db, t.causes, n);
      forall i | 0 <= i < |t.db.events| ensures Custody(env, t.db, t.causes, i) {
        if i < n {
          CustodyKept(env, s.db, s.causes, t.db, Some(p), i);
        }
      }
    }
  }

  lemma StepKeepsSystem(env: Env, s: System, a: Action)
    requires RoundTrips(env.times) && SystemInvariant(env, s)
    ensures SystemInvariant(env, Step(env, s, a))
  {
    match a
    case BootstrapOrg(org, key, now) => BootstrapKeepsSystem(env, s, org, key, now);
    case ReadOwner(id, request) =>
      var current := GetOwner(env.times, s.db, request.orgId);
      if current.Ok? {
        PreparedIsChecked(env, request, current.value);
      }
    case SwapOwner(id, now) =>
      if id in s.pending {
        SwapKeepsSystem(env, s, id, now);
      }
    case Abandon(id) =>
  }

  // ---------------------------------------------------------------- main results

  /** Chain of custody over every interleaving of any number of handlers. */
  lemma {:induction false} ChainOfCustody(env: Env, actions: seq<Action>)
    requires RoundTrips(env.times)
    ensures SystemInvariant(env, Run(env, actions))
  {
    if actions == [] {
      EmptyInvariant(env.times);
    } else {
      ChainOfCustody(env, actions[..|actions| - 1]);
      StepKeepsSystem(env, Run(env, actions[..|actions| - 1]), actions[|actions| - 1]);
    }
  }

  /** No run takes a key away from an honest owner without that owner's signature: behind
      every rotation away from an honest key there is, in what that key signed, a
      directive for exactly this organisation, this owner and this replacement. */
  lemma RotationsAreSigned(h: Digest, env: Env, actions: seq<Action>, honest: set<Key>,
                           log: set<(Key, Message)>, i: nat) returns (d: Directive)
    requires RoundTrips(env.times) && Unforgeable(h, env.verify, honest, log)
    requires i < |Run(env, actions).db.events|
    ensures var events := Run(env, actions).db.events;
            var before := EventsOf(events[..i], events[i].orgId);
            events[i].kind == Rotation ==>
              && before != []
              && (before[|before| - 1].ownerPubkey in honest ==>
                    && (before[|before| - 1].ownerPubkey, RecoveryMessage(d)) in log
                    && d.orgId == events[i].orgId
                    && d.revoked == before[|before| - 1].ownerPubkey
                    && d.replacement == events[i].ownerPubkey)
  {
    EventCustody(env, actions, i);
    d := CustodySigned(h, env, Run(env, actions).db, Run(env, actions).causes, i, honest, log);
  }

  /** An event in custody was signed for, if it took the key of an honest owner. */
  lemma CustodySigned(h: Digest, env: Env, db: Db, causes: seq<Option<Pending>>, i: nat, honest: set<Key>,
                      log: set<(Key, Message)>) returns (d: Directive)
    requires i < |db.events| == |causes| && Custody(env, db, causes, i) && Unforgeable(h, env.verify, honest, log)
    ensures var before := EventsOf(db.events[..i], db.events[i].orgId);
            db.events[i].kind == Rotation ==>
              && before != []
              && (before[|before| - 1].ownerPubkey in honest ==>
                    && (before[|before| - 1].ownerPubkey, RecoveryMessage(d)) in log
                    && d.orgId == db.events[i].orgId
                    && d.revoked == before[|before| - 1].ownerPubkey
                    && d.replacement == db.events[i].ownerPubkey)
  {
    var before := EventsOf(db.events[..i], db.events[i].orgId);
    d := Directive(seq(16, _ => 0), seq(32, _ => 0), seq(32, _ => 0), [], []);
    if db.events[i].kind == Rotation && before[|before| - 1].ownerPubkey in honest {
      d := SignedDirective(h, env, honest, log, causes[i].value);
    }
  }

  lemma EventCustody(env: Env, actions: seq<Action>, i: nat)
    requires RoundTrips(env.times) && i < |Run(env, actions).db.events|
    ensures |Run(env, actions).causes| == |Run(env, actions).db.events|
    ensures Custody(env, Run(env, actions).db, Run(env, actions).causes, i)
  {
    ChainOfCustody(env, actions);
  }

  /** A request that passed the handler's checks carries a directive that the revoked key signed. */
  lemma SignedDirective(h: Digest, env: Env, honest: set<Key>, log: set<(Key, Message)>, p: Pending)
    returns (d: Directive)
    requires Checked(env, p) && Unforgeable(h, env.verify, honest, log) && p.directive.revoked in honest
    ensures d == p.directive && (p.directive.revoked, RecoveryMessage(d)) in log
  {
    var m := LoggedSameKind(h, log, p.directive.revoked, RecoveryMessage(p.directive));
    d := m.directive;
    DirectiveBinding(d, p.directive);
  }

  /** Two identical directives that race: both handlers read the same owner, and between
      the two swaps the organisation gets no other event. Together they add one event and
      both report the same version. */
  lemma RacingDirectives(env: Env, db: Db, later: Db, p: Pending, q: Pending, now: int, again: int)
    requires RoundTrips(env.times) && Invariant(env.times, db) && Invariant(env.times, later)
    requires p.directive == q.directive && p.expected == q.expected
    requires Swap(env, db, p, now).1.Ok?
    requires EventsOf(later.events, p.directive.orgId)
             == EventsOf(Swap(env, db, p, now).0.events, p.directive.orgId)
    ensures Swap(env, later, q, again).0 == later
    ensures Swap(env, later, q, again).1.Ok?
    ensures Swap(env, later, q, again).1.value.version == Swap(env, db, p, now).1.value.version
  {
    RotateReplay(env.times, db, later, p.directive.orgId, p.expected, p.directive.replacement, now, again);
  }

  /** A request sent again after its own rotation committed: the handler reads the replacement as
      owner and lets the same request through, with the replacement as the expected owner; the
      store then refuses it, then and in every later state. */
  lemma RetryAfterCommitFails(env: Env, db: Db, later: Db, request: RotateRequest, now: int, again: int)
    requires RoundTrips(env.times) && Invariant(env.times, db)
    requires GetOwner(env.times, db, request.orgId).Ok?
    requires var p := Prepare(env, request, GetOwner(env.times, db, request.orgId).value);
             p.Some? && Swap(env, db, p.value, now).1.Ok?
    ensures var p := Prepare(env, request, GetOwner(env.times, db, request.orgId).value).value;
            var after := Swap(env, db, p, now).0;
            var retry := p.(expected := p.directive.replacement);
            && GetOwner(env.times, after, request.orgId).Ok?
            && Prepare(env, request, GetOwner(env.times, after, request.orgId).value) == Some(retry)
            && Swap(env, after, retry, again) == (after, Err(ReplacementIsCurrent))
            && Swap(env, later, retry, again).0 == later && Swap(env, later, retry, again).1.Err?
  {
    var read := GetOwner(env.times, db, request.orgId).value;
    var p := Prepare(env, request, read).value;
    var after := Swap(env, db, p, now).0;
    var retry := p.(expected := p.directive.replacement);
    UninterruptedRotation(env, db, request, now);
    PreparedExactly(env, request, read, p);
    PreparedExactly(env, request, GetOwner(env.times, after, request.orgId).value, retry);
    ReplayBranchNeverCommits(env, later, retry, again);
    SwapToCurrent(env, after, retry, again);
  }

  /** The refusal that a retry gets while the replacement is still the owner. */
  lemma SwapToCurrent(env: Env, db: Db, p: Pending, now: int)
    requires p.directive.replacement == p.expected
    requires GetOwner(env.times, db, p.directive.orgId).Ok?
    requires var read := GetOwner(env.times, db, p.directive.orgId).value;
             read.Some? && read.value.ownerPubkey == p.expected
    ensures Swap(env, db, p, now) == (db, Err(ReplacementIsCurrent))
  {
  }

  // ---------------------------------------------------------------- what each step does

  /** A swap of a pending rotation ends it. When the organisation's last event holds the key that was
      read, and the replacement is another key, one event is added: the next version, the replacement,
      the time of the swap; the pending rotation becomes its cause; other organisations keep their
      histories. Otherwise no event is added. */
  lemma SwapStepExactly(env: Env, s: System, id: nat, now: int)
    requires RoundTrips(env.times) && SystemInvariant(env, s) && id in s.pending
    ensures var p, t := s.pending[id], Step(env, s, SwapOwner(id, now));
            var org, replacement := p.directive.orgId, p.directive.replacement;
            var history := EventsOf(s.db.events, org);
            var event := OwnerEvent(org, |history| + 1, Rotation, replacement, env.times.format(now));
            && t.pending == s.pending - {id}
            && if history != [] && history[|history| - 1].ownerPubkey == p.expected != replacement then
                 && t.db.events == s.db.events + [event] && t.causes == s.causes + [Some(p)]
                 && EventsOf(t.db.events, org) == history + [event]
                 && (forall other: OrgId :: other != org ==>
                       EventsOf(t.db.events, other) == EventsOf(s.db.events, other))
                 && org in t.db.owners && t.db.owners[org].ownerPubkey == replacement
               else t.db == s.db && t.causes == s.causes
  {
    var p, t := s.pending[id], Step(env, s, SwapOwner(id, now));
    var org, replacement := p.directive.orgId, p.directive.replacement;
    RotateEffect(env.times, s.db, org, p.expected, replacement, now);
    var history := EventsOf(s.db.events, org);
    if history != [] && history[|history| - 1].ownerPubkey == p.expected != replacement {
      SwapAppends(env, s.db, p, now);
      var event := t.db.events[|s.db.events|];
      forall other: OrgId ensures EventsOf(t.db.events, other)
                                  == EventsOf(s.db.events, other) + if event.orgId == other then [event] else []
      {
        AppendedEvent(s.db.events, event, other);
      }
    }
  }

  lemma SwapAppends(env: Env, db: Db, p: Pending, now: int)
    requires RoundTrips(env.times) && Invariant(env.times, db)
    requires var history := EventsOf(db.events, p.directive.orgId);
             history != [] && history[|history| - 1].ownerPubkey == p.expected != p.directive.replacement
    ensures var history := EventsOf(db.events, p.directive.orgId);
            var after := Swap(env, db, p, now).0;
            && after.events == db.events + [OwnerEvent(p.directive.orgId, |history| + 1, Rotation,
                                                       p.directive.replacement, env.times.format(now))]
            && p.directive.orgId in after.owners
            && after.owners[p.directive.orgId].ownerPubkey == p.directive.replacement
  {
    assert OrgInvariant(env.times, db, p.directive.orgId);
  }

  /** A bootstrap adds the first event of an organisation without a history, and nothing otherwise;
      it leaves the rotations in flight alone. */
  lemma BootstrapStepExactly(env: Env, s: System, org: OrgId, key: Key, now: int)
    requires SystemInvariant(env, s)
    ensures var t := Step(env, s, BootstrapOrg(org, key, now));
            var event := OwnerEvent(org, 1, Bootstrap, key, env.times.format(now));
            && t.pending == s.pending
            && if EventsOf(s.db.events, org) == [] then
                 && t.db.events == s.db.events + [event] && t.causes == s.causes + [None]
                 && EventsOf(t.db.events, org) == [event]
                 && org in t.db.owners && t.db.owners[org].ownerPubkey == key
               else t.db == s.db && t.causes == s.causes
  {
    assert OrgInvariant(env.times, s.db, org);
    BootstrapEffect(env.times, s.db, org, key, now);
  }

  /** The checks of the handler on a request, in terms of the key it read. */
  ghost predicate PassesChecks(env: Env, request: RotateRequest, current: Key, p: Pending) {
    && !env.isBlank(request.reason)
    && TextCodecs.Base64Decode(request.signingPubkeyB64) == Some(p.directive.revoked) && env.isKey(p.directive.revoked)
    && TextCodecs.Base64Decode(request.replacementB64) == Some(p.directive.replacement)
    && env.isKey(p.directive.replacement)
    && TextCodecs.Base64Decode(request.signatureB64) == Some(p.signature)
    && p.directive == Directive(request.orgId, p.directive.revoked, p.directive.replacement,
                                request.signedAt, request.reason)
    && p.expected == current
    && (p.directive.revoked == current || p.directive.replacement == current)
    && AllFit(DirectiveRecords(p.directive))
    && env.verify(p.directive.revoked, Encode(DirectiveRecords(p.directive)), p.signature)
  }

  /** A read adds a pending rotation exactly when its id is free, the organisation has an owner, and
      the request passes the checks against the key of the last event; it changes nothing else. */
  lemma ReadStepExactly(env: Env, s: System, id: nat, request: RotateRequest, p: Pending)
    requires SystemInvariant(env, s)
    ensures var t := Step(env, s, ReadOwner(id, request));
            var history := EventsOf(s.db.events, request.orgId);
            && t.db == s.db && t.causes == s.causes
            && (id in s.pending ==> t.pending == s.pending)
            && (id !in s.pending ==>
                  && (t.pending == s.pending[id := p] <==>
                        history != [] && PassesChecks(env, request, history[|history| - 1].ownerPubkey, p))
                  && (id !in t.pending ==> t.pending == s.pending)
                  && (id in t.pending ==> t.pending == s.pending[id := t.pending[id]]))
  {
    GetOwnerEffect(env.times, s.db, request.orgId);
    var current := GetOwner(env.times, s.db, request.orgId).value;
    PreparedExactly(env, request, current, p);
    var t := Step(env, s, ReadOwner(id, request));
    if id !in s.pending && t.pending == s.pending[id := p] {
      assert id in t.pending && t.pending[id] == p;
      assert Prepare(env, request, current) == Some(p);
    }
  }

  /** Read and swap without a step in between leave the registry as the handler on its own does. */
  lemma ReadThenSwap(env: Env, s: System, id: nat, request: RotateRequest, now: int)
    requires id !in s.pending
    ensures var current := GetOwner(env.times, s.db, request.orgId);
            var p := if current.Ok? then Prepare(env, request, current.value) else None;
            var t := Step(env, Step(env, s, ReadOwner(id, request)), SwapOwner(id, now));
            && t.pending == s.pending
            && t.db == if p.None? then s.db else Swap(env, s.db, p.value, now).0
  {
    var read := Step(env, s, ReadOwner(id, request));
    if id in read.pending {
      assert read.pending - {id} == s.pending;
    } else {
      assert read == s;
    }
  }

  lemma {:induction false} RunAppends(env: Env, actions: seq<Action>, last: Action)
    ensures Run(env, actions + [last]) == Step(env, Run(env, actions), last)
  {
    assert (actions + [last])[..|actions|] == actions;
  }

  lemma BootstrapFirst(env: Env, org: OrgId, key: Key, t0: int)
    requires RoundTrips(env.times)
    ensures var s := Run(env, [BootstrapOrg(org, key, t0)]);
            && SystemInvariant(env, s) && s.pending == map[] && s.causes == [None]
            && s.db.events == [OwnerEvent(org, 1, Bootstrap, key, env.times.format(t0))]
            && EventsOf(s.db.events, org) == s.db.events
  {
    var a := BootstrapOrg(org, key, t0);
    RunAppends(env, [], a);
    assert [] + [a] == [a];
    ChainOfCustody(env, []);
    ChainOfCustody(env, [a]);
    BootstrapStepExactly(env, Initial(), org, key, t0);
  }

  lemma ReadSecond(env: Env, org: OrgId, key: Key, request: RotateRequest, p: Pending, t0: int)
    requires RoundTrips(env.times) && request.orgId == org && PassesChecks(env, request, key, p)
    ensures var s := Run(env, [BootstrapOrg(org, key, t0), ReadOwner(0, request)]);
            && SystemInvariant(env, s) && s.pending == map[0 := p]
            && s.db == Run(env, [BootstrapOrg(org, key, t0)]).db && s.causes == [None]
  {
    var a, b := BootstrapOrg(org, key, t0), ReadOwner(0, request);
    RunAppends(env, [a], b);
    assert [a] + [b] == [a, b];
    BootstrapFirst(env, org, key, t0);
    ChainOfCustody(env, [a, b]);
    ReadStepExactly(env, Run(env, [a]), 0, request, p);
  }

  /** The shortest rotation: bootstrap, read, swap. The history is the two keys, versions 1 and 2. */
  lemma ShortestRotation(env: Env, org: OrgId, key: Key, request: RotateRequest, p: Pending, t0: int, t1: int)
    requires RoundTrips(env.times) && request.orgId == org
    requires PassesChecks(env, request, key, p) && p.directive.replacement != key
    ensures var s := Run(env, [BootstrapOrg(org, key, t0), ReadOwner(0, request), SwapOwner(0, t1)]);
            && s.pending == map[]
            && s.db.events == [OwnerEvent(org, 1, Bootstrap, key, env.times.format(t0)),
                               OwnerEvent(org, 2, Rotation, p.directive.replacement, env.times.format(t1))]
            && s.causes == [None, Some(p)]
  {
    var a, b, c := BootstrapOrg(org, key, t0), ReadOwner(0, request), SwapOwner(0, t1);
    RunAppends(env, [a, b], c);
    assert [a, b] + [c] == [a, b, c];
    BootstrapFirst(env, org, key, t0);
    ReadSecond(env, org, key, request, p, t0);
    SwapStepExactly(env, Run(env, [a, b]), 0, t1);
  }
}
