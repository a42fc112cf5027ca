/** Everything that is signed or bound by digest, and the proof that the five kinds of
    signing input never share bytes: descriptor, descriptor core, keyring, recovery
    directive (signing-service/src/main.rs) and artifact (signing-service/src/policy.rs). */
module SigningMessages {
  import opened Bytes
  import opened CanonicalEncoding
  import opened Descriptor
  import opened Keyring

  datatype Directive = Directive(
    orgId: bytes16, revoked: Key, replacement: Key, signedAt: bytes, reason: bytes)

  /** Artifact metadata after its identifiers and digests have been decoded. */
  datatype ArtifactMetadata = ArtifactMetadata(
    appId: bytes16, deployId: bytes16, descriptorCoreHash: bytes32,
    descriptorSigningPubkey: Key, platformReleaseVersion: bytes, policyTemplateId: bytes,
    policyTemplateSha256: bytes32, agentPolicySha256: bytes32, genpolicyVersionPin: bytes,
    signedAt: bytes, keyId: bytes)

  datatype Message =
    | DescriptorMessage(descriptor: DeploymentDescriptor)
    | CoreMessage(core: DeploymentDescriptor)
    | KeyringMessage(keyring: OrgKeyring)
    | RecoveryMessage(directive: Directive)
    | ArtifactMessage(metadata: ArtifactMetadata, regoHash: bytes32)

  const RECOVERY_PURPOSE: bytes := Ascii("enclava-recovery-v1")
  const ARTIFACT_PURPOSE: bytes := Ascii("enclava-policy-artifact-v1")

  function DirectiveRecords(d: Directive): seq<Record> {
    [Record(Ascii("purpose"), RECOVERY_PURPOSE),
     Record(Ascii("org_id"), d.orgId),
     Record(Ascii("revoked_pubkey"), d.revoked),
     Record(Ascii("replacement_pubkey"), d.replacement),
     Record(Ascii("signed_at"), d.signedAt),
     Record(Ascii("reason"), d.reason)]
  }

  function MetadataRecords(m: ArtifactMetadata): seq<Record> {
    [Record(Ascii("app_id"), m.appId),
     Record(Ascii("deploy_id"), m.deployId),
     Record(Ascii("descriptor_core_hash"), m.descriptorCoreHash),
     Record(Ascii("descriptor_signing_pubkey"), m.descriptorSigningPubkey),
     Record(Ascii("platform_release_version"), m.platformReleaseVersion),
     Record(Ascii("policy_template_id"), m.policyTemplateId),
     Record(Ascii("policy_template_sha256"), m.policyTemplateSha256),
     Record(Ascii("agent_policy_sha256"), m.agentPolicySha256),
     Record(Ascii("genpolicy_version_pin"), m.genpolicyVersionPin),
     Record(Ascii("signed_at"), m.signedAt),
     Record(Ascii("key_id"), m.keyId)]
  }

  function ArtifactRecords(h: Digest, m: ArtifactMetadata, regoHash: bytes32): seq<Record> {
    [Record(Ascii("purpose"), ARTIFACT_PURPOSE),
     Record(Ascii("metadata"), h(Encode(MetadataRecords(m)))),
     Record(Ascii("rego_sha256"), regoHash)]
  }

  function MessageRecords(h: Digest, m: Message): seq<Record> {
    match m
    case DescriptorMessage(d) => DescriptorRecords(h, d, DESCRIPTOR_PURPOSE, true)
    case CoreMessage(d) => DescriptorRecords(h, d, CORE_PURPOSE, false)
    case KeyringMessage(k) => KeyringRecords(h, k)
    case RecoveryMessage(d) => DirectiveRecords(d)
    case ArtifactMessage(md, rego) => ArtifactRecords(h, md, rego)
  }

  function Purpose(m: Message): bytes {
    match m
    case DescriptorMessage(_) => DESCRIPTOR_PURPOSE
    case CoreMessage(_) => CORE_PURPOSE
    case KeyringMessage(_) => KEYRING_PURPOSE
    case RecoveryMessage(_) => RECOVERY_PURPOSE
    case ArtifactMessage(_, _) => ARTIFACT_PURPOSE
  }

  /** The bytes that a signer of the message signs. */
  function SigningBytes(h: Digest, m: Message): bytes {
    Encode(MessageRecords(h, m))
  }

  /** The encoder does not panic anywhere while it encodes the message. */
  predicate MessageFits(h: Digest, m: Message) {
    match m
    case DescriptorMessage(d) => DescriptorFits(h, d)
    case CoreMessage(d) => DescriptorFits(h, d)
    case KeyringMessage(k) => KeyringFits(h, k)
    case RecoveryMessage(d) => AllFit(DirectiveRecords(d))
    case ArtifactMessage(md, _) => AllFit(MetadataRecords(md))
  }

  predicate SameKind(a: Message, b: Message) {
    && a.DescriptorMessage? == b.DescriptorMessage? && a.CoreMessage? == b.CoreMessage?
    && a.KeyringMessage? == b.KeyringMessage? && a.RecoveryMessage? == b.RecoveryMessage?
    && a.ArtifactMessage? == b.ArtifactMessage?
  }

  lemma PurposesDistinct(a: Message, b: Message)
    requires Purpose(a) == Purpose(b)
    ensures SameKind(a, b)
  {
    assert |Purpose(a)| == |Purpose(b)|;
  }

  lemma PurposeComesFirst(h: Digest, m: Message)
    ensures MessageRecords(h, m) != []
    ensures MessageRecords(h, m)[0] == Record(Ascii("purpose"), Purpose(m))
  {
    if m.DescriptorMessage? {
      DescriptorPurposeFirst(h, m.descriptor, DESCRIPTOR_PURPOSE, true);
    } else if m.CoreMessage? {
      DescriptorPurposeFirst(h, m.core, CORE_PURPOSE, false);
    } else {
      OtherPurposeFirst(h, m);
    }
  }

  lemma OtherPurposeFirst(h: Digest, m: Message)
    requires !m.DescriptorMessage? && !m.CoreMessage?
    ensures MessageRecords(h, m) != []
    ensures MessageRecords(h, m)[0] == Record(Ascii("purpose"), Purpose(m))
  {
  }

  lemma DescriptorPurposeFirst(h: Digest, d: DeploymentDescriptor, purpose: bytes, anchors: bool)
    ensures DescriptorRecords(h, d, purpose, anchors) != []
    ensures DescriptorRecords(h, d, purpose, anchors)[0] == Record(Ascii("purpose"), purpose)
  {
  }

  lemma RecordsFit(h: Digest, m: Message)
    requires MessageFits(h, m)
    ensures AllFit(MessageRecords(h, m))
  {
    if m.CoreMessage? {
      CoreRecordsFit(h, m.core);
    }
  }

  /** Signing inputs of different kinds are never the same bytes, whatever the digest
      function: a signature made for one purpose is worthless for another. */
  lemma KindsNeverShareBytes(h: Digest, a: Message, b: Message)
    requires MessageFits(h, a) && MessageFits(h, b)
    requires SigningBytes(h, a) == SigningBytes(h, b)
    ensures SameKind(a, b)
  {
    RecordsFit(h, a);
    RecordsFit(h, b);
    EncodeInjective(MessageRecords(h, a), MessageRecords(h, b));
    PurposeComesFirst(h, a);
    PurposeComesFirst(h, b);
    PurposesDistinct(a, b);
  }

  /** Directive bytes identify the directive outright: nothing in them is digested. */
  lemma DirectiveBinding(a: Directive, b: Directive)
    requires AllFit(DirectiveRecords(a)) && AllFit(DirectiveRecords(b))
    requires Encode(DirectiveRecords(a)) == Encode(DirectiveRecords(b))
    ensures a == b
  {
    var x, y := DirectiveRecords(a), DirectiveRecords(b);
    EncodeInjective(x, y);
    assert x[1].value == y[1].value && x[2].value == y[2].value && x[3].value == y[3].value;
    assert x[4].value == y[4].value && x[5].value == y[5].value;
  }

  lemma MetadataBinding(a: ArtifactMetadata, b: ArtifactMetadata)
    requires AllFit(MetadataRecords(a)) && AllFit(MetadataRecords(b))
    requires Encode(MetadataRecords(a)) == Encode(MetadataRecords(b))
    ensures a == b
  {
    var x, y := MetadataRecords(a), MetadataRecords(b);
    EncodeInjective(x, y);
    assert x[0].value == y[0].value && x[1].value == y[1].value && x[2].value == y[2].value;
    assert x[3].value == y[3].value && x[4].value == y[4].value && x[5].value == y[5].value;
    assert x[6].value == y[6].value && x[7].value == y[7].value && x[8].value == y[8].value;
    assert x[9].value == y[9].value && x[10].value == y[10].value;
  }

  /** Artifact inputs identify the metadata and the policy digest, unless the two
      encoded metadata lists collide. */
  lemma ArtifactBinding(h: Digest, a: ArtifactMetadata, b: ArtifactMetadata, x: bytes32, y: bytes32)
    requires AllFit(MetadataRecords(a)) && AllFit(MetadataRecords(b))
    requires Encode(ArtifactRecords(h, a, x)) == Encode(ArtifactRecords(h, b, y))
    ensures x == y
    ensures a == b || Collision(h, {Encode(MetadataRecords(a)), Encode(MetadataRecords(b))})
  {
    var rx, ry := ArtifactRecords(h, a, x), ArtifactRecords(h, b, y);
    EncodeInjective(rx, ry);
    assert rx[1].value == ry[1].value && rx[2].value == ry[2].value;
    if Encode(MetadataRecords(a)) == Encode(MetadataRecords(b)) {
      MetadataBinding(a, b);
    }
  }
}
