/** Signing beside a changing registry (signing-service/src/main.rs, sign_policy): the handler reads
    the owner once and signs later, so the owner can have been replaced by then. */
module SigningProtocol {
  import opened Bytes
  import opened Descriptor
  import opened Keyring
  import opened SigningMessages
  import opened SigningInputs
  import opened OwnerRegistry
  import opened RotationProtocol
  import opened Artifact
  import opened PolicySigning

  /** A signing handler between its read and its signature. `seen` is the organisation's history
      at the read (a history variable: no step reads it). */
  datatype Reading = Reading(request: PolicyRequest, owner: OwnerRecord, seen: seq<OwnerEvent>)

  /** A signed artifact, with the organisation's history when it was signed. */
  datatype Issue = Issue(reading: Reading, signedAt: bytes, artifact: SignedArtifact, history: seq<OwnerEvent>)

  datatype SigningSystem = SigningSystem(registry: System, readings: map<nat, Reading>, issued: seq<Issue>)

  datatype SigningAction =
    | OnRegistry(action: Action)
    | ReadForSigning(id: nat, request: PolicyRequest)
    | Sign(id: nat, signedAt: bytes)
    | Drop(id: nat)

  function OrgOf(r: PolicyRequest): OrgId {
    r.descriptor.descriptor.orgId
  }

  function SigningStep(h: Digest, env: Env, service: Service, s: SigningSystem, a: SigningAction): SigningSystem {
    match a
    case OnRegistry(action) => s.(registry := Step(env, s.registry, action))
    case ReadForSigning(id, request) =>
      var owner := RequireOwner(env, service, s.registry.db, request);
      if id in s.readings || owner.Err? then s
      else
        var seen := EventsOf(s.registry.db.events, OrgOf(request));
        s.(readings := s.readings[id := Reading(request, owner.value, seen)])
    case Sign(id, signedAt) =>
      if id !in s.readings || service.key.None? then s
      else
        var reading := s.readings[id];
        var artifact :=
          SignUnder(h, env, service, service.key.value, reading.owner.ownerPubkey, reading.request, signedAt);
        var history := EventsOf(s.registry.db.events, OrgOf(reading.request));
        SigningSystem(s.registry, s.readings - {id},
                      s.issued + if artifact.Ok? then [Issue(reading, signedAt, artifact.value, history)] else [])
    case Drop(id) => s.(readings := s.readings - {id})
  }

  function SigningRun(h: Digest, env: Env, service: Service, actions: seq<SigningAction>): SigningSystem {
    if actions == [] then SigningSystem(Initial(), map[], [])
    else
      SigningStep(h, env, service, SigningRun(h, env, service, actions[..|actions| - 1]), actions[|actions| - 1])
  }

  /** The actions of a run that concern the registry. */
  function RegistryActions(actions: seq<SigningAction>): seq<Action> {
    if actions == [] then []
    else
      var last := actions[|actions| - 1];
      RegistryActions(actions[..|actions| - 1]) + if last.OnRegistry? then [last.action] else []
  }

  /** Signing never disturbs the registry: it runs as if nobody signed, so every result about runs
      of the registry holds beside it. */
  lemma {:induction false} RegistryRunsAlone(h: Digest, env: Env, service: Service, actions: seq<SigningAction>)
    ensures SigningRun(h, env, service, actions).registry == Run(env, RegistryActions(actions))
  {
    if actions == [] {
    } else {
      var before, last := actions[..|actions| - 1], actions[|actions| - 1];
      RegistryRunsAlone(h, env, service, before);
      var all := RegistryActions(actions);
      if last.OnRegistry? {
        assert all[..|all| - 1] == RegistryActions(before) && all[|all| - 1] == last.action;
      } else {
        assert all == RegistryActions(before);
      }
    }
  }

  // ------------------------------------------------------------ histories only grow

  lemma StepAppends(env: Env, s: System, a: Action, org: OrgId)
    ensures EventsOf(s.db.events, org) <= EventsOf(Step(env, s, a).db.events, org)
  {
    var after := Step(env, s, a).db.events;
    if after != s.db.events {
      var last := after[|after| - 1];
      assert after == s.db.events + [last];
      AppendedEvent(s.db.events, last, org);
    }
  }

  /** What holds of a reading: it saw a history that ends with its owner, and the organisation's
      history starts with what it saw. */
  ghost predicate ReadingHolds(db: Db, reading: Reading) {
    && reading.seen != [] && reading.seen <= EventsOf(db.events, OrgOf(reading.request))
    && reading.owner.version == |reading.seen|
    && reading.owner.ownerPubkey == reading.seen[|reading.seen| - 1].ownerPubkey
  }

  ghost predicate IssueHolds(h: Digest, env: Env, service: Service, db: Db, issue: Issue) {
    var reading := issue.reading;
    && reading.seen != [] && reading.seen <= issue.history
    && issue.history <= EventsOf(db.events, OrgOf(reading.request))
    && reading.owner.version == |reading.seen|
    && reading.owner.ownerPubkey == reading.seen[|reading.seen| - 1].ownerPubkey
    && service.key.Some?
    && SignUnder(h, env, service, service.key.value, reading.owner.ownerPubkey, reading.request, issue.signedAt)
       == Ok(issue.artifact)
  }

  ghost predicate SigningInvariant(h: Digest, env: Env, service: Service, s: SigningSystem) {
    && Invariant(env.times, s.registry.db)
    && (forall id :: id in s.readings ==> ReadingHolds(s.registry.db, s.readings[id]))
    && (forall i :: 0 <= i < |s.issued| ==> IssueHolds(h, env, service, s.registry.db, s.issued[i]))
  }

  lemma RegistryStepKeeps(h: Digest, env: Env, service: Service, s: SigningSystem, a: Action)
    requires SigningInvariant(h, env, service, s) && Invariant(env.times, Step(env, s.registry, a).db)
    ensures SigningInvariant(h, env, service, SigningStep(h, env, service, s, OnRegistry(a)))
  {
    var db := Step(env, s.registry, a).db;
    forall id | id in s.readings ensures ReadingHolds(db, s.readings[id]) {
      StepAppends(env, s.registry, a, OrgOf(s.readings[id].request));
    }
    forall i | 0 <= i < |s.issued| ensures IssueHolds(h, env, service, db, s.issued[i]) {
      StepAppends(env, s.registry, a, OrgOf(s.issued[i].reading.request));
    }
  }

  lemma ReadKeeps(h: Digest, env: Env, service: Service, s: SigningSystem, id: nat, request: PolicyRequest)
    requires SigningInvariant(h, env, service, s)
    ensures SigningInvariant(h, env, service, SigningStep(h, env, service, s, ReadForSigning(id, request)))
  {
    GetOwnerEffect(env.times, s.registry.db, OrgOf(request));
  }

  /** Every reachable state keeps the invariant. */
  lemma {:induction false} SigningRunKeeps(h: Digest, env: Env, service: Service, actions: seq<SigningAction>)
    requires RoundTrips(env.times)
    ensures SigningInvariant(h, env, service, SigningRun(h, env, service, actions))
  {
    if actions == [] {
      EmptyInvariant(env.times);
    } else {
      var before, last := actions[..|actions| - 1], actions[|actions| - 1];
      var s := SigningRun(h, env, service, before);
      SigningRunKeeps(h, env, service, before);
      match last
      case OnRegistry(action) =>
        RegistryRunsAlone(h, env, service, actions);
        ChainOfCustody(env, RegistryActions(actions));
        RegistryStepKeeps(h, env, service, s, action);
      case ReadForSigning(id, request) => ReadKeeps(h, env, service, s, id, request);
      case Sign(_, _) =>
      case Drop(_) =>
    }
  }

  // --------------------------------------------------------------------- main result

  /** Over every interleaving: the owner under which an artifact is signed is the key of the event
      whose version was read, in a history that only grows. It is the last event when the artifact
      is signed exactly when nothing was committed for the organisation since the read. If that
      owner is honest, it signed an equivalent keyring for the organisation; if the descriptor's
      signer is honest, it signed an equivalent descriptor; or strings collide. */
  lemma IssuedUnderReadOwner(h: Digest, env: Env, service: Service, actions: seq<SigningAction>, i: nat,
                             honest: set<Key>, log: set<(Key, Message)>)
    returns (keyring: OrgKeyring, descriptor: DeploymentDescriptor)
    requires RoundTrips(env.times) && Unforgeable(h, env.verify, honest, log)
    requires i < |SigningRun(h, env, service, actions).issued|
    ensures var s := SigningRun(h, env, service, actions);
            var issue := s.issued[i];
            var r, owner, history := issue.reading.request, issue.reading.owner, issue.history;
            && 0 < owner.version <= |history| && owner.ownerPubkey == history[owner.version - 1].ownerPubkey
            && history <= EventsOf(s.registry.db.events, OrgOf(r))
            && (owner.version == |history| <==> history == issue.reading.seen)
            && (owner.ownerPubkey in honest ==>
                  && (owner.ownerPubkey, KeyringMessage(keyring)) in log
                  && (|| (KeyringEquivalent(keyring, r.keyring.keyring) && keyring.orgId == OrgOf(r))
                      || Collision(h, KeyringPreimages(h, keyring) + KeyringPreimages(h, r.keyring.keyring))))
            && (r.descriptor.signingPubkey in honest ==>
                  && (r.descriptor.signingPubkey, DescriptorMessage(descriptor)) in log
                  && (|| Equivalent(descriptor, r.descriptor.descriptor)
                      || Collision(h, DescriptorPreimages(h, descriptor)
                                      + DescriptorPreimages(h, r.descriptor.descriptor))))
  {
    SigningRunKeeps(h, env, service, actions);
    var s := SigningRun(h, env, service, actions);
    var issue := s.issued[i];
    assert IssueHolds(h, env, service, s.registry.db, issue);
    var reading := issue.reading;
    keyring, descriptor := Provenance(h, env.verify, honest, log, reading.request.descriptor,
                                      reading.request.keyring, reading.owner.ownerPubkey);
  }

  // ---------------------------------------------------------------- what each step does

  /** A read adds exactly its own reading, when signing is enabled, the organisations agree and the
      organisation has an owner; it changes nothing else. */
  lemma ReadStepExactly(h: Digest, env: Env, service: Service, s: SigningSystem, id: nat, request: PolicyRequest)
    requires Invariant(env.times, s.registry.db)
    ensures var t := SigningStep(h, env, service, s, ReadForSigning(id, request));
            var org := OrgOf(request);
            var history := EventsOf(s.registry.db.events, org);
            && t.registry == s.registry && t.issued == s.issued
            && if id !in s.readings && service.key.Some? && org == request.keyring.keyring.orgId && history != [] then
                 && t.readings.Keys == s.readings.Keys + {id}
                 && (forall other :: other in s.readings ==> t.readings[other] == s.readings[other])
                 && t.readings[id].request == request && t.readings[id].seen == history
                 && t.readings[id].owner.ownerPubkey == history[|history| - 1].ownerPubkey
               else t.readings == s.readings
  {
    GetOwnerEffect(env.times, s.registry.db, OrgOf(request));
  }

  /** A signature ends its reading. It issues one artifact, for the organisation's history as it is by
      then, exactly when the request is in order for the owner that was read, and otherwise none. */
  lemma SignStepExactly(h: Digest, env: Env, service: Service, key: KeyMaterial, s: SigningSystem, id: nat,
                        signedAt: bytes)
    requires id in s.readings && service.key == Some(key) && CorrectKey(env.verify, key)
    ensures var t := SigningStep(h, env, service, s, Sign(id, signedAt));
            var owner, r := s.readings[id].owner.ownerPubkey, s.readings[id].request;
            var agent := service.generate(r.descriptor.descriptor, r.logEncryption);
            && t.registry == s.registry && t.readings == s.readings - {id}
            && if && EnvelopesInOrder(h, env.verify, r.descriptor, r.keyring, owner) && agent.Some?
                  && RequestInOrder(h, service.template, r.names, r.descriptor.descriptor, agent.value, key.keyId,
                                    signedAt)
               then |t.issued| == |s.issued| + 1 && t.issued[..|s.issued|] == s.issued
                    && t.issued[|s.issued|].reading == s.readings[id]
                    && SignUnder(h, env, service, key, owner, r, signedAt) == Ok(t.issued[|s.issued|].artifact)
                    && t.issued[|s.issued|].history == EventsOf(s.registry.db.events, OrgOf(r))
               else t.issued == s.issued
  {
    SignsUnder(h, env, service, key, s.readings[id].owner.ownerPubkey, s.readings[id].request, signedAt);
  }

  /** Read and signature without a step in between issue what the handler on its own answers. */
  lemma ReadThenSign(h: Digest, env: Env, service: Service, s: SigningSystem, id: nat, request: PolicyRequest,
                     signedAt: bytes)
    requires id !in s.readings
    ensures var t := SigningStep(h, env, service,
                                 SigningStep(h, env, service, s, ReadForSigning(id, request)), Sign(id, signedAt));
            var answer := SignPolicy(h, env, service, s.registry.db, request, signedAt);
            && t.registry == s.registry && t.readings == s.readings
            && (answer.Err? ==> t.issued == s.issued)
            && (answer.Ok? ==> |t.issued| == |s.issued| + 1 && t.issued[|s.issued|].artifact == answer.value)
  {
    var read := SigningStep(h, env, service, s, ReadForSigning(id, request));
    if id in read.readings {
      assert read.readings - {id} == s.readings;
    }
  }
}
