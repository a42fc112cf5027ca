/** The signing handler (signing-service/src/main.rs, sign_policy): the owner is read from the
    registry, the envelopes are verified under it, and the artifact is signed and checked. */
module PolicySigning {
  import opened Bytes
  import opened CanonicalEncoding
  import opened Descriptor
  import opened Keyring
  import opened SigningMessages
  import opened SigningInputs
  import opened OwnerRegistry
  import opened ResourceNames
  import opened RotationProtocol
  import opened CapabilityProfiles
  import opened Artifact
  import opened ServiceTemplate
  import Template

  /** A request with its blobs decoded. */
  datatype PolicyRequest = PolicyRequest(
    descriptor: DescriptorEnvelope, keyring: KeyringEnvelope, names: SignRequest, logEncryption: bytes)

  /** What the service is set up with: its key if signing is enabled, its template, and the
      generator of agent policies. */
  datatype Service = Service(
    key: Option<KeyMaterial>, template: bytes,
    generate: (DeploymentDescriptor, bytes) -> Option<AgentPolicy>)

  datatype PolicyError =
    | SigningDisabled | OrgIdMismatch | StoreFailed(store: StoreError) | NoOwner
    | NotVerified(verifying: VerifyError) | GenerationFailed
    | NotSigned(signing: ArtifactError) | SelfCheckFailed(checking: ArtifactError)

  /** What the handler does up to and including its one look at the registry. */
  function RequireOwner(env: Env, service: Service, db: Db, r: PolicyRequest): (read: Result<OwnerRecord, PolicyError>)
    ensures read.Ok? ==> service.key.Some?
  {
    var org := r.descriptor.descriptor.orgId;
    if service.key.None? then Err(SigningDisabled)
    else if org != r.keyring.keyring.orgId then Err(OrgIdMismatch)
    else
      var owner := GetOwner(env.times, db, org);
      if owner.Err? then Err(StoreFailed(owner.error))
      else if owner.value.None? then Err(NoOwner)
      else Ok(owner.value.value)
  }

  /** What it does with the owner that it has read; the registry is not looked at again. */
  function SignUnder(h: Digest, env: Env, service: Service, key: KeyMaterial, owner: Key, r: PolicyRequest,
                     signedAt: bytes): Result<SignedArtifact, PolicyError>
  {
    var inputs := VerifySigningInputs(h, env.verify, r.descriptor, r.keyring, owner);
    if inputs.Err? then Err(NotVerified(inputs.error))
    else
      var agent := service.generate(inputs.value.descriptor, r.logEncryption);
      if agent.None? then Err(GenerationFailed)
      else SignAndCheck(h, env, service.template, r.names, inputs.value, agent.value, key, signedAt)
  }

  /** The handler without a step of the registry in between. */
  function SignPolicy(h: Digest, env: Env, service: Service, db: Db, r: PolicyRequest, signedAt: bytes)
    : Result<SignedArtifact, PolicyError>
  {
    var owner := RequireOwner(env, service, db, r);
    if owner.Err? then Err(owner.error)
    else SignUnder(h, env, service, service.key.value, owner.value.ownerPubkey, r, signedAt)
  }

  function SignAndCheck(h: Digest, env: Env, template: bytes, names: SignRequest, inputs: VerifiedInputs,
                        agent: AgentPolicy, key: KeyMaterial, signedAt: bytes)
    : Result<SignedArtifact, PolicyError>
  {
    var artifact := SignVerifiedPolicy(h, template, names, inputs, agent, key, signedAt);
    if artifact.Err? then Err(NotSigned(artifact.error))
    else
      var check := VerifySignedArtifact(h, env.verify, artifact.value, key.pubkey);
      if check.Err? then Err(SelfCheckFailed(check.error)) else Ok(artifact.value)
  }

  /** The last check of the handler never fails for a key that verifies what it signs. */
  lemma SelfCheckNeverFails(h: Digest, env: Env, service: Service, db: Db, r: PolicyRequest, signedAt: bytes)
    requires service.key.Some? ==> CorrectKey(env.verify, service.key.value)
    ensures SignPolicy(h, env, service, db, r, signedAt).Err? ==>
              !SignPolicy(h, env, service, db, r, signedAt).error.SelfCheckFailed?
  {
    var result := SignPolicy(h, env, service, db, r, signedAt);
    if result.Err? && result.error.SelfCheckFailed? {
      var owner := GetOwner(env.times, db, r.descriptor.descriptor.orgId).value.value.ownerPubkey;
      var inputs := VerifySigningInputs(h, env.verify, r.descriptor, r.keyring, owner).value;
      var agent := service.generate(inputs.descriptor, r.logEncryption).value;
      SignedArtifactVerifies(h, env.verify, service.template, r.names, inputs, agent, service.key.value, signedAt);
    }
  }

  /** What a signed artifact stands on, in terms of the state that the handler read. */
  lemma SignedOnInputs(h: Digest, env: Env, service: Service, db: Db, r: PolicyRequest, signedAt: bytes)
    returns (owner: Key, inputs: VerifiedInputs, agent: AgentPolicy)
    requires SignPolicy(h, env, service, db, r, signedAt).Ok?
    ensures GetOwner(env.times, db, r.descriptor.descriptor.orgId).Ok?
    ensures var read := GetOwner(env.times, db, r.descriptor.descriptor.orgId).value;
            read.Some? && read.value.ownerPubkey == owner
    ensures VerifySigningInputs(h, env.verify, r.descriptor, r.keyring, owner) == Ok(inputs)
    ensures service.key.Some?
    ensures SignVerifiedPolicy(h, service.template, r.names, inputs, agent, service.key.value, signedAt)
            == Ok(SignPolicy(h, env, service, db, r, signedAt).value)
  {
    owner := GetOwner(env.times, db, r.descriptor.descriptor.orgId).value.value.ownerPubkey;
    inputs := VerifySigningInputs(h, env.verify, r.descriptor, r.keyring, owner).value;
    agent := service.generate(inputs.descriptor, r.logEncryption).value;
  }

  /** Over every run of the registry: an artifact is signed only for an organisation with a
      history, under the key of its last event at the read. If that owner is honest, it signed an
      equivalent keyring for the organisation that lists itself and the descriptor's signer; if
      the signer is honest, it signed an equivalent descriptor; or strings collide. */
  lemma SignedUnderLastOwner(h: Digest, env: Env, service: Service, actions: seq<Action>, r: PolicyRequest,
                             signedAt: bytes, honest: set<Key>, log: set<(Key, Message)>)
    returns (owner: Key, keyring: OrgKeyring, descriptor: DeploymentDescriptor)
    requires RoundTrips(env.times) && Unforgeable(h, env.verify, honest, log)
    requires SignPolicy(h, env, service, Run(env, actions).db, r, signedAt).Ok?
    ensures var d := r.descriptor.descriptor;
            var history := EventsOf(Run(env, actions).db.events, d.orgId);
            && history != [] && owner == history[|history| - 1].ownerPubkey
            && r.keyring.signingPubkey == owner
            && (owner in honest ==>
                  && (owner, KeyringMessage(keyring)) in log
                  && (|| (&& KeyringEquivalent(keyring, r.keyring.keyring) && keyring.orgId == d.orgId
                          && (exists m :: m in keyring.members && IsOwnerMember(m, owner))
                          && (exists m :: m in keyring.members && m.pubkey == r.descriptor.signingPubkey))
                      || Collision(h, KeyringPreimages(h, keyring) + KeyringPreimages(h, r.keyring.keyring))))
            && (r.descriptor.signingPubkey in honest ==>
                  && (r.descriptor.signingPubkey, DescriptorMessage(descriptor)) in log
                  && (|| Equivalent(descriptor, d)
                      || Collision(h, DescriptorPreimages(h, descriptor) + DescriptorPreimages(h, d))))
  {
    var db := Run(env, actions).db;
    var inputs, agent;
    owner, inputs, agent := SignedOnInputs(h, env, service, db, r, signedAt);
    ChainOfCustody(env, actions);
    GetOwnerEffect(env.times, db, r.descriptor.descriptor.orgId);
    AcceptedExactly(h, env.verify, r.descriptor, r.keyring, owner);
    keyring, descriptor := Provenance(h, env.verify, honest, log, r.descriptor, r.keyring, owner);
  }

  // -------------------------------------------------- an artifact binds its descriptor

  lemma CollisionGrows(h: Digest, s: set<bytes>, t: set<bytes>)
    requires s <= t
    ensures Collision(h, s) ==> Collision(h, t)
  {
  }

  /** All strings that are digested for a verified descriptor and its artifact. */
  ghost function AllPreimages(h: Digest, d: DeploymentDescriptor, a: SignedArtifact): set<bytes> {
    DescriptorPreimages(h, d) + {CoreBytes(h, d)} + ArtifactPreimages(a)
  }

  /** The facts about one signed artifact that the binding needs. */
  ghost predicate SignedFor(h: Digest, template: bytes, d: DeploymentDescriptor, a: SignedArtifact) {
    && Template.RenderTemplate(template, Template.SlotsOf(d)) == Ok(a.regoText)
    && h(a.regoText) == d.expectedKbsPolicyHash
    && SigningInput(h, a.metadata, h(a.regoText)).Ok?
    && DecodeMetadata(a.metadata).Some?
    && DecodeMetadata(a.metadata).value.descriptorCoreHash == h(CoreBytes(h, d))
    && DecodeMetadata(a.metadata).value.agentPolicySha256 == d.expectedAgentPolicyHash
  }

  lemma SignedIsSignedFor(h: Digest, env: Env, service: Service, db: Db, r: PolicyRequest, signedAt: bytes)
    requires SignPolicy(h, env, service, db, r, signedAt).Ok?
    ensures DescriptorFits(h, r.descriptor.descriptor)
    ensures SignedFor(h, service.template, r.descriptor.descriptor,
                      SignPolicy(h, env, service, db, r, signedAt).value)
  {
    var owner, inputs, agent := SignedOnInputs(h, env, service, db, r, signedAt);
    InputsFit(h, env.verify, r.descriptor, r.keyring, owner);
    InputsAre(h, env.verify, r.descriptor, r.keyring, owner);
    InputsSignedFor(h, service.template, r.names, inputs, agent, service.key.value, signedAt);
  }

  lemma InputsFit(h: Digest, verify: Verifier, d: DescriptorEnvelope, k: KeyringEnvelope, owner: Key)
    requires VerifySigningInputs(h, verify, d, k, owner).Ok?
    ensures DescriptorFits(h, d.descriptor)
  {
    AcceptedHasParts(h, verify, d, k, owner);
  }

  lemma InputsAre(h: Digest, verify: Verifier, d: DescriptorEnvelope, k: KeyringEnvelope, owner: Key)
    requires VerifySigningInputs(h, verify, d, k, owner).Ok?
    ensures var inputs := VerifySigningInputs(h, verify, d, k, owner).value;
            inputs.descriptor == d.descriptor && inputs.coreHash == h(CoreBytes(h, d.descriptor))
  {
  }

  lemma InputsSignedFor(h: Digest, template: bytes, names: SignRequest, inputs: VerifiedInputs,
                        agent: AgentPolicy, key: KeyMaterial, signedAt: bytes)
    requires SignVerifiedPolicy(h, template, names, inputs, agent, key, signedAt).Ok?
    requires inputs.coreHash == h(CoreBytes(h, inputs.descriptor))
    ensures SignedFor(h, template, inputs.descriptor,
                      SignVerifiedPolicy(h, template, names, inputs, agent, key, signedAt).value)
  {
    SignedParts(h, template, names, inputs, agent, key, signedAt);
    BuiltMetadataDecodes(inputs.descriptor, inputs, h(template), h(agent.text), agent.versionPin,
                         key.keyId, signedAt);
  }

  lemma SignedParts(h: Digest, template: bytes, names: SignRequest, inputs: VerifiedInputs,
                    agent: AgentPolicy, key: KeyMaterial, signedAt: bytes)
    requires SignVerifiedPolicy(h, template, names, inputs, agent, key, signedAt).Ok?
    ensures var a := SignVerifiedPolicy(h, template, names, inputs, agent, key, signedAt).value;
            var d := inputs.descriptor;
            && Template.RenderTemplate(template, Template.SlotsOf(d)) == Ok(a.regoText)
            && h(a.regoText) == d.expectedKbsPolicyHash && h(agent.text) == d.expectedAgentPolicyHash
            && a.metadata == BuildMetadata(d, inputs, h(template), h(agent.text), agent.versionPin, key.keyId, signedAt)
            && SigningInput(h, a.metadata, h(a.regoText)).Ok?
  {
  }

  /** The core digest leaves the three anchors out, but the signing input brings each back: the
      agent digest stands in the metadata, the policy digest in the input, and the init-data digest
      in the policy text. */
  lemma SignedForBinding(h: Digest, head: bytes, tail: bytes, d: DeploymentDescriptor, a: SignedArtifact,
                         e: DeploymentDescriptor, b: SignedArtifact)
    requires Framed(head, tail) && DescriptorFits(h, d) && DescriptorFits(h, e)
    requires SignedFor(h, ServiceText(head, tail), d, a) && SignedFor(h, ServiceText(head, tail), e, b)
    requires SigningInput(h, a.metadata, h(a.regoText)) == SigningInput(h, b.metadata, h(b.regoText))
    ensures Equivalent(d, e) || Collision(h, AllPreimages(h, d, a) + AllPreimages(h, e, b))
  {
    var s := AllPreimages(h, d, a) + AllPreimages(h, e, b);
    if !Collision(h, s) {
      SignedTextsAgree(h, ServiceText(head, tail), d, a, e, b);
      CoresEquivalent(h, d, e, s);
      SignedAnchorsAgree(h, head, tail, d, a, e, b);
      AnchorsAgree(d, e);
    }
  }

  lemma CoresEquivalent(h: Digest, d: DeploymentDescriptor, e: DeploymentDescriptor, s: set<bytes>)
    requires DescriptorFits(h, d) && DescriptorFits(h, e) && CoreBytes(h, d) == CoreBytes(h, e)
    requires DescriptorPreimages(h, d) + DescriptorPreimages(h, e) <= s && !Collision(h, s)
    ensures CoreEquivalent(d, e)
  {
    CoreBinding(h, d, e);
    CollisionGrows(h, DescriptorPreimages(h, d) + DescriptorPreimages(h, e), s);
  }

  /** Without a collision, one signing input means one policy text, one agent policy digest and one
      core encoding. */
  lemma SignedTextsAgree(h: Digest, template: bytes, d: DeploymentDescriptor, a: SignedArtifact,
                         e: DeploymentDescriptor, b: SignedArtifact)
    requires SignedFor(h, template, d, a) && SignedFor(h, template, e, b)
    requires SigningInput(h, a.metadata, h(a.regoText)) == SigningInput(h, b.metadata, h(b.regoText))
    requires !Collision(h, AllPreimages(h, d, a) + AllPreimages(h, e, b))
    ensures a.regoText == b.regoText && CoreBytes(h, d) == CoreBytes(h, e)
    ensures d.expectedAgentPolicyHash == e.expectedAgentPolicyHash
  {
    var s := AllPreimages(h, d, a) + AllPreimages(h, e, b);
    var ma, mb := DecodeMetadata(a.metadata).value, DecodeMetadata(b.metadata).value;
    ArtifactBinding(h, ma, mb, h(a.regoText), h(b.regoText));
    CollisionGrows(h, {Encode(MetadataRecords(ma)), Encode(MetadataRecords(mb))}, s);
    assert a.regoText in s && b.regoText in s && CoreBytes(h, d) in s && CoreBytes(h, e) in s;
  }

  lemma SignedAnchorsAgree(h: Digest, head: bytes, tail: bytes, d: DeploymentDescriptor, a: SignedArtifact,
                           e: DeploymentDescriptor, b: SignedArtifact)
    requires Framed(head, tail) && a.regoText == b.regoText
    requires SignedFor(h, ServiceText(head, tail), d, a) && SignedFor(h, ServiceText(head, tail), e, b)
    ensures d.expectedCcInitDataHash == e.expectedCcInitDataHash
    ensures d.expectedKbsPolicyHash == e.expectedKbsPolicyHash
  {
    PolicyTextBindsDescriptor(head, tail, d, e);
  }

  lemma AnchorsAgree(d: DeploymentDescriptor, e: DeploymentDescriptor)
    requires CoreEquivalent(d, e)
    requires d.expectedAgentPolicyHash == e.expectedAgentPolicyHash
    requires d.expectedCcInitDataHash == e.expectedCcInitDataHash
    requires d.expectedKbsPolicyHash == e.expectedKbsPolicyHash
    ensures Equivalent(d, e)
  {
  }

  /** Two artifacts that the service signed with one signing input were signed for equivalent
      descriptors, the three anchors included, or strings collide. The owners, the keyrings and the
      states of the registry may be different. */
  lemma ArtifactBindsDescriptor(h: Digest, env: Env, service: Service, head: bytes, tail: bytes,
                                db: Db, r: PolicyRequest, at: bytes, later: Db, q: PolicyRequest, next: bytes)
    requires Framed(head, tail) && service.template == ServiceText(head, tail)
    requires SignPolicy(h, env, service, db, r, at).Ok? && SignPolicy(h, env, service, later, q, next).Ok?
    requires var a := SignPolicy(h, env, service, db, r, at).value;
             var b := SignPolicy(h, env, service, later, q, next).value;
             SigningInput(h, a.metadata, h(a.regoText)) == SigningInput(h, b.metadata, h(b.regoText))
    ensures var a := SignPolicy(h, env, service, db, r, at).value;
            var b := SignPolicy(h, env, service, later, q, next).value;
            var d, e := r.descriptor.descriptor, q.descriptor.descriptor;
            Equivalent(d, e) || Collision(h, AllPreimages(h, d, a) + AllPreimages(h, e, b))
  {
    SignedIsSignedFor(h, env, service, db, r, at);
    SignedIsSignedFor(h, env, service, later, q, next);
    SignedForBinding(h, head, tail, r.descriptor.descriptor, SignPolicy(h, env, service, db, r, at).value,
                     q.descriptor.descriptor, SignPolicy(h, env, service, later, q, next).value);
  }

  // ---------------------------------------------------------------- when it is signed

  /** The envelopes are in order for an owner: one organisation, the owner's key on a keyring that
      lists the owner and the deployer, both signatures, and no resource named twice. */
  ghost predicate EnvelopesInOrder(h: Digest, verify: Verifier, d: DescriptorEnvelope, k: KeyringEnvelope, owner: Key) {
    && d.descriptor.orgId == k.keyring.orgId && k.signingPubkey == owner
    && KeyringFits(h, k.keyring) && DescriptorFits(h, d.descriptor)
    && verify(owner, KeyringBytes(h, k.keyring), k.signature)
    && (exists m :: m in k.keyring.members && m.role == Owner && m.pubkey == owner)
    && (exists m :: m in k.keyring.members && m.pubkey == d.signingPubkey)
    && verify(d.signingPubkey, DescriptorBytes(h, d.descriptor), d.signature)
    && UniqueResources(d.descriptor)
  }

  /** The request asks for what the descriptor and this service's template say. */
  ghost predicate RequestInOrder(h: Digest, template: bytes, names: SignRequest, d: DeploymentDescriptor,
                                 agent: AgentPolicy, keyId: bytes, signedAt: bytes) {
    && names.appId == d.appId && names.deployId == d.deployId
    && names.platformReleaseVersion == d.platformReleaseVersion
    && d.schemaVersion == Ascii("v1") && d.policyTemplateId == Ascii("trustee-resource-policy-v1.1")
    && d.policyTemplateSha256 == h(template)
    && SecurityFloor(d.ociRuntimeSpec).None?
    && TextsAgree(h, template, d, agent) && TextsShort(d, agent, keyId, signedAt)
  }

  /** Over every run of the registry: the handler of a service with a correct key signs exactly when
      the organisation has a history, the envelopes are in order for the key of its last event, an
      agent policy is generated, and the request is in order. The last check never stands in the way. */
  lemma SignsExactly(h: Digest, env: Env, service: Service, key: KeyMaterial, actions: seq<Action>, r: PolicyRequest,
                     signedAt: bytes)
    requires RoundTrips(env.times) && service.key == Some(key) && CorrectKey(env.verify, key)
    ensures var d := r.descriptor.descriptor;
            var history := EventsOf(Run(env, actions).db.events, d.orgId);
            var agent := service.generate(d, r.logEncryption);
            SignPolicy(h, env, service, Run(env, actions).db, r, signedAt).Ok? <==>
            && history != []
            && EnvelopesInOrder(h, env.verify, r.descriptor, r.keyring, history[|history| - 1].ownerPubkey)
            && agent.Some?
            && RequestInOrder(h, service.template, r.names, d, agent.value, key.keyId, signedAt)
  {
    var d := r.descriptor.descriptor;
    var db := Run(env, actions).db;
    var history := EventsOf(db.events, d.orgId);
    ChainOfCustody(env, actions);
    GetOwnerEffect(env.times, db, d.orgId);
    if history != [] {
      SignsUnder(h, env, service, key, history[|history| - 1].ownerPubkey, r, signedAt);
    }
  }

  lemma SignsUnder(h: Digest, env: Env, service: Service, key: KeyMaterial, owner: Key, r: PolicyRequest,
                   signedAt: bytes)
    requires CorrectKey(env.verify, key)
    ensures var d := r.descriptor.descriptor;
            var agent := service.generate(d, r.logEncryption);
            SignUnder(h, env, service, key, owner, r, signedAt).Ok? <==>
            && EnvelopesInOrder(h, env.verify, r.descriptor, r.keyring, owner) && agent.Some?
            && RequestInOrder(h, service.template, r.names, d, agent.value, key.keyId, signedAt)
  {
    AcceptedInOrder(h, env.verify, r.descriptor, r.keyring, owner);
    var inputs := VerifySigningInputs(h, env.verify, r.descriptor, r.keyring, owner);
    var agent := service.generate(r.descriptor.descriptor, r.logEncryption);
    if inputs.Ok? && agent.Some? {
      SignedInOrder(h, env, service.template, r.names, inputs.value, agent.value, key, signedAt);
    }
  }

  lemma AcceptedInOrder(h: Digest, verify: Verifier, d: DescriptorEnvelope, k: KeyringEnvelope, owner: Key)
    ensures VerifySigningInputs(h, verify, d, k, owner).Ok? <==> EnvelopesInOrder(h, verify, d, k, owner)
    ensures VerifySigningInputs(h, verify, d, k, owner).Ok? ==>
              VerifySigningInputs(h, verify, d, k, owner).value.descriptor == d.descriptor
  {
    AcceptedExactly(h, verify, d, k, owner);
    if VerifySigningInputs(h, verify, d, k, owner).Ok? {
      InputsAre(h, verify, d, k, owner);
    }
  }

  lemma SignedInOrder(h: Digest, env: Env, template: bytes, names: SignRequest, inputs: VerifiedInputs,
                      agent: AgentPolicy, key: KeyMaterial, signedAt: bytes)
    requires CorrectKey(env.verify, key)
    ensures SignAndCheck(h, env, template, names, inputs, agent, key, signedAt).Ok?
            <==> RequestInOrder(h, template, names, inputs.descriptor, agent, key.keyId, signedAt)
  {
    ChecksItself(h, env, template, names, inputs, agent, key, signedAt);
    SignedExactly(h, template, names, inputs, agent, key, signedAt);
  }

  lemma ChecksItself(h: Digest, env: Env, template: bytes, names: SignRequest, inputs: VerifiedInputs,
                     agent: AgentPolicy, key: KeyMaterial, signedAt: bytes)
    requires CorrectKey(env.verify, key)
    ensures SignAndCheck(h, env, template, names, inputs, agent, key, signedAt).Ok?
            <==> SignVerifiedPolicy(h, template, names, inputs, agent, key, signedAt).Ok?
  {
    if SignVerifiedPolicy(h, template, names, inputs, agent, key, signedAt).Ok? {
      SignedArtifactVerifies(h, env.verify, template, names, inputs, agent, key, signedAt);
    }
  }

  /** Whatever is signed was asked for: the request names the app, the deployment and the release of
      the signed descriptor, which names this service's schema and template. */
  lemma SignedAsRequested(h: Digest, env: Env, service: Service, db: Db, r: PolicyRequest, signedAt: bytes)
    requires SignPolicy(h, env, service, db, r, signedAt).Ok?
    ensures var d := r.descriptor.descriptor;
            && r.names.appId == d.appId && r.names.deployId == d.deployId
            && r.names.platformReleaseVersion == d.platformReleaseVersion
            && d.schemaVersion == Ascii("v1") && d.policyTemplateId == Ascii("trustee-resource-policy-v1.1")
            && d.policyTemplateSha256 == h(service.template)
            && SecurityFloor(d.ociRuntimeSpec).None?
  {
    var owner, inputs, agent := SignedOnInputs(h, env, service, db, r, signedAt);
    InputsAre(h, env.verify, r.descriptor, r.keyring, owner);
    SignedExactly(h, service.template, r.names, inputs, agent, service.key.value, signedAt);
  }

  /** For the service's own text, in full: the floor by its conditions, and rendering by the values:
      each is fit for a slot, and none that finally appears has an opening brace pair. */
  lemma ServiceSignsExactly(h: Digest, head: bytes, tail: bytes, req: SignRequest, inputs: VerifiedInputs,
                            agent: AgentPolicy, key: KeyMaterial, signedAt: bytes)
    requires Framed(head, tail)
    ensures var template, d := ServiceText(head, tail), inputs.descriptor;
            var slots := Template.SlotsOf(d);
            SignVerifiedPolicy(h, template, req, inputs, agent, key, signedAt).Ok? <==>
            && req.appId == d.appId && req.deployId == d.deployId
            && req.platformReleaseVersion == d.platformReleaseVersion
            && d.schemaVersion == Ascii("v1") && d.policyTemplateId == Ascii("trustee-resource-policy-v1.1")
            && d.policyTemplateSha256 == h(template)
            && SecurityFloor(d.ociRuntimeSpec).None?
            && (forall k :: 0 <= k < 8 ==> Template.SlotText(slots[k].value))
            && Template.ValuesPlain(Template.Resolved(slots))
            && d.expectedKbsPolicyHash == h(Template.Simultaneous(template, Template.Resolved(slots)))
            && d.expectedAgentPolicyHash == h(agent.text)
            && TextsShort(d, agent, key.keyId, signedAt)
  {
    var template, d := ServiceText(head, tail), inputs.descriptor;
    SignedExactly(h, template, req, inputs, agent, key, signedAt);
    ServiceRenders(head, tail, d);
  }

  lemma ServiceRenders(head: bytes, tail: bytes, d: DeploymentDescriptor)
    requires Framed(head, tail)
    ensures var template, slots := ServiceText(head, tail), Template.SlotsOf(d);
            var r := Template.RenderTemplate(template, slots);
            && (r.Ok? <==> (forall k :: 0 <= k < 8 ==> Template.SlotText(slots[k].value))
                           && Template.ValuesPlain(Template.Resolved(slots)))
            && (r.Ok? ==> r.value == Template.Simultaneous(template, Template.Resolved(slots)))
  {
    var template, slots := ServiceText(head, tail), Template.SlotsOf(d);
    Template.SlotNames(d);
    ServiceSlotsStandAlone(head, tail, d, 0);
    Template.RenderSucceeds(template, slots);
    Template.NoErrors(slots);
    Template.FirstErrorExactly(slots);
    AllOccur(head, tail, d);
    Template.ResolvedNames(slots);
    ResolvedOccur(template, slots, Template.Resolved(slots));
    PlainWhenAllOccur(template, Template.Resolved(slots));
    EightSlots(d);
  }

  lemma EightSlots(d: DeploymentDescriptor)
    ensures |Template.SlotsOf(d)| == 8
  {
  }

  lemma ResolvedOccur(template: bytes, a: seq<Template.Slot>, b: seq<Template.Slot>)
    requires Template.SameNames(b, a) && forall k :: 0 <= k < |a| ==> Template.Occurs(template, a[k])
    ensures forall k :: 0 <= k < |b| ==> Template.Occurs(template, b[k])
  {
    forall k | 0 <= k < |b| ensures Template.Occurs(template, b[k]) {
      assert b[k].name == a[k].name && Template.Occurs(template, a[k]);
    }
  }
}
