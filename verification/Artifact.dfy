/** Signing and verifying policy artifacts (signing-service/src/policy.rs). The template
    text and the signature scheme are parameters; agent-policy text comes from outside. */
module Artifact {
  import opened Bytes
  import opened CanonicalEncoding
  import opened TextCodecs
  import opened Descriptor
  import opened Keyring
  import opened SigningMessages
  import opened SigningInputs
  import opened CapabilityProfiles
  import Template

  /** Metadata as the artifact carries it: identifiers and digests are text. */
  datatype PolicyMetadata = PolicyMetadata(
    appId: bytes, deployId: bytes, descriptorCoreHash: bytes, descriptorSigningPubkey: bytes,
    platformReleaseVersion: bytes, policyTemplateId: bytes, policyTemplateSha256: bytes,
    agentPolicySha256: bytes, genpolicyVersionPin: bytes, signedAt: bytes, keyId: bytes)

  datatype SignedArtifact = SignedArtifact(
    metadata: PolicyMetadata, regoText: bytes, regoSha256: bytes, agentPolicyText: bytes,
    agentPolicySha256: bytes, signature: bytes, verifyPubkeyB64: bytes)

  datatype SignRequest = SignRequest(appId: bytes16, deployId: bytes16, platformReleaseVersion: bytes)

  datatype AgentPolicy = AgentPolicy(text: bytes, versionPin: bytes)

  /** A key pair: what it signs with, and the key that verifies it. */
  datatype KeyMaterial = KeyMaterial(keyId: bytes, sign: bytes -> bytes64, pubkey: Key)

  datatype ArtifactError =
    | AppIdMismatch | DeployIdMismatch | ReleaseMismatch | UnsupportedSchema
    | TemplateIdMismatch | TemplateDigestMismatch
    | FloorViolation(floor: FloorError) | RenderFailed(render: Template.RenderError)
    | RegoDigestMismatch | AgentDigestMismatch | MalformedMetadata | Panic
    | MalformedDigest | MetadataDigestMismatch | MalformedSignature | SignatureInvalid

  const TEMPLATE_ID: bytes := Ascii("trustee-resource-policy-v1.1")

  function DecodeHex32(t: bytes): Option<bytes32> {
    var b := HexDecode(t);
    if b.Some? && |b.value| == 32 then Some(b.value) else None
  }

  /** The metadata that the signing input covers; None when a field does not decode. */
  function DecodeMetadata(m: PolicyMetadata): Option<ArtifactMetadata> {
    var app, deploy := ParseUuid(m.appId), ParseUuid(m.deployId);
    var core, pubkey := DecodeHex32(m.descriptorCoreHash), DecodeHex32(m.descriptorSigningPubkey);
    var template, agent := DecodeHex32(m.policyTemplateSha256), DecodeHex32(m.agentPolicySha256);
    if app.None? || deploy.None? || core.None? || pubkey.None? || template.None? || agent.None? then None
    else
      Some(ArtifactMetadata(app.value, deploy.value, core.value, pubkey.value,
                            m.platformReleaseVersion, m.policyTemplateId, template.value,
                            agent.value, m.genpolicyVersionPin, m.signedAt, m.keyId))
  }

  function SigningInput(h: Digest, m: PolicyMetadata, regoHash: bytes32)
    : Result<bytes, ArtifactError>
  {
    var decoded := DecodeMetadata(m);
    if decoded.None? then Err(MalformedMetadata)
    else if !AllFit(MetadataRecords(decoded.value)) then Err(Panic)
    else Ok(Encode(ArtifactRecords(h, decoded.value, regoHash)))
  }

  /** Hexadecimal is tried first; a text that is valid hexadecimal is never read as base64. */
  function DecodeSignature(t: bytes): Result<bytes64, ArtifactError> {
    var hex := HexDecode(t);
    var decoded := if hex.Some? then hex else Base64Decode(t);
    if decoded.Some? && |decoded.value| == 64 then Ok(decoded.value) else Err(MalformedSignature)
  }

  function BuildMetadata(d: DeploymentDescriptor, inputs: VerifiedInputs, templateHash: bytes32,
                         agentHash: bytes32, pin: bytes, keyId: bytes, signedAt: bytes)
    : PolicyMetadata
  {
    PolicyMetadata(UuidText(d.appId), UuidText(d.deployId), HexEncode(inputs.coreHash),
                   HexEncode(inputs.signingPubkey), d.platformReleaseVersion, TEMPLATE_ID,
                   HexEncode(templateHash), HexEncode(agentHash), pin, signedAt, keyId)
  }

  function SignVerifiedPolicy(h: Digest, template: bytes, req: SignRequest, inputs: VerifiedInputs,
                              agent: AgentPolicy, key: KeyMaterial, signedAt: bytes)
    : Result<SignedArtifact, ArtifactError>
  {
    var d := inputs.descriptor;
    if req.appId != d.appId then Err(AppIdMismatch)
    else if req.deployId != d.deployId then Err(DeployIdMismatch)
    else if req.platformReleaseVersion != d.platformReleaseVersion then Err(ReleaseMismatch)
    else if d.schemaVersion != Ascii("v1") then Err(UnsupportedSchema)
    else if d.policyTemplateId != TEMPLATE_ID then Err(TemplateIdMismatch)
    else if d.policyTemplateSha256 != h(template) then Err(TemplateDigestMismatch)
    else if SecurityFloor(d.ociRuntimeSpec).Some? then
      Err(FloorViolation(SecurityFloor(d.ociRuntimeSpec).value))
    else
      var rego := Template.RenderTemplate(template, Template.SlotsOf(d));
      if rego.Err? then Err(RenderFailed(rego.error))
      else if d.expectedKbsPolicyHash != h(rego.value) then Err(RegoDigestMismatch)
      else if d.expectedAgentPolicyHash != h(agent.text) then Err(AgentDigestMismatch)
      else
        var metadata := BuildMetadata(d, inputs, h(template), h(agent.text), agent.versionPin,
                                      key.keyId, signedAt);
        var input := SigningInput(h, metadata, h(rego.value));
        if input.Err? then Err(input.error)
        else
          Ok(SignedArtifact(metadata, rego.value, HexEncode(h(rego.value)), agent.text,
                            HexEncode(h(agent.text)), HexEncode(key.sign(input.value)),
                            Base64Encode(key.pubkey)))
  }

  function VerifySignedArtifact(h: Digest, verify: Verifier, a: SignedArtifact, key: Key)
    : Result<(), ArtifactError>
  {
    var regoHash := DecodeHex32(a.regoSha256);
    if regoHash.None? then Err(MalformedDigest)
    else if regoHash.value != h(a.regoText) then Err(RegoDigestMismatch)
    else
      var agentHash := DecodeHex32(a.agentPolicySha256);
      if agentHash.None? then Err(MalformedDigest)
      else if agentHash.value != h(a.agentPolicyText) then Err(AgentDigestMismatch)
      else if a.metadata.agentPolicySha256 != a.agentPolicySha256 then Err(MetadataDigestMismatch)
      else
        var signature := DecodeSignature(a.signature);
        if signature.Err? then Err(signature.error)
        else
          var input := SigningInput(h, a.metadata, regoHash.value);
          if input.Err? then Err(input.error)
          else if !verify(key, input.value, signature.value) then Err(SignatureInvalid)
          else Ok(())
  }

  // ------------------------------------------------------------ signature text

  lemma Hex32RoundTrip(b: bytes32)
    ensures DecodeHex32(HexEncode(b)) == Some(b)
  {
    HexRoundTrip(b);
  }

  /** A 64-byte signature has two spellings with one meaning: its hexadecimal text and
      its base64 text, which always carries padding and so is never hexadecimal. */
  lemma TwoSpellings(signature: bytes64)
    ensures DecodeSignature(HexEncode(signature)) == Ok(signature)
    ensures DecodeSignature(Base64Encode(signature)) == Ok(signature)
  {
    HexRoundTrip(signature);
    Base64RoundTrip(signature);
    Base64Padded(signature);
    var t := Base64Encode(signature);
    HexRejects(t, |t| - 1);
  }

  /** No other text decodes to it: only hexadecimal in either case, or exactly the
      padded base64 text. */
  lemma OnlyTwoSpellings(t: bytes)
    requires DecodeSignature(t).Ok?
    ensures HexDecode(t) == Some(DecodeSignature(t).value) || t == Base64Encode(DecodeSignature(t).value)
  {
    if HexDecode(t).None? {
      Base64Canonical(t);
    }
  }

  // ----------------------------------------------------------------- artifacts

  ghost predicate CorrectKey(verify: Verifier, key: KeyMaterial) {
    forall m: bytes :: verify(key.pubkey, m, key.sign(m))
  }

  /** The built metadata decodes to the values it was built from. */
  lemma BuiltMetadataDecodes(d: DeploymentDescriptor, inputs: VerifiedInputs, templateHash: bytes32,
                             agentHash: bytes32, pin: bytes, keyId: bytes, signedAt: bytes)
    ensures DecodeMetadata(BuildMetadata(d, inputs, templateHash, agentHash, pin, keyId, signedAt))
            == Some(ArtifactMetadata(d.appId, d.deployId, inputs.coreHash, inputs.signingPubkey,
                                     d.platformReleaseVersion, TEMPLATE_ID, templateHash, agentHash,
                                     pin, signedAt, keyId))
  {
    UuidRoundTrip(d.appId);
    UuidRoundTrip(d.deployId);
    Hex32RoundTrip(inputs.coreHash);
    Hex32RoundTrip(inputs.signingPubkey);
    Hex32RoundTrip(templateHash);
    Hex32RoundTrip(agentHash);
  }

  /** Every artifact that is signed is accepted under the signing key, and its metadata
      decodes to the identifiers, core digest and signer of the verified descriptor. */
  lemma SignedArtifactVerifies(h: Digest, verify: Verifier, template: bytes, req: SignRequest,
                               inputs: VerifiedInputs, agent: AgentPolicy, key: KeyMaterial,
                               signedAt: bytes)
    requires CorrectKey(verify, key)
    requires SignVerifiedPolicy(h, template, req, inputs, agent, key, signedAt).Ok?
    ensures var a := SignVerifiedPolicy(h, template, req, inputs, agent, key, signedAt).value;
            var d := inputs.descriptor;
            && VerifySignedArtifact(h, verify, a, key.pubkey) == Ok(())
            && DecodeMetadata(a.metadata)
               == Some(ArtifactMetadata(d.appId, d.deployId, inputs.coreHash, inputs.signingPubkey,
                                        d.platformReleaseVersion, TEMPLATE_ID, h(template),
                                        h(agent.text), agent.versionPin, signedAt, key.keyId))
            && h(a.regoText) == d.expectedKbsPolicyHash
            && h(a.agentPolicyText) == d.expectedAgentPolicyHash
  {
    var d := inputs.descriptor;
    var a := SignVerifiedPolicy(h, template, req, inputs, agent, key, signedAt).value;
    Hex32RoundTrip(h(a.regoText));
    Hex32RoundTrip(h(agent.text));
    BuiltMetadataDecodes(d, inputs, h(template), h(agent.text), agent.versionPin, key.keyId, signedAt);
    TwoSpellings(key.sign(SigningInput(h, a.metadata, h(a.regoText)).value));
  }

  /** A signed artifact never grants more than its profile: the container is not
      privileged, and with privilege escalation its added capabilities are exactly the
      rootful-sudo ones. The policy text has the template's line and quote structure. */
  lemma SignedArtifactIsConfined(h: Digest, template: bytes, req: SignRequest, inputs: VerifiedInputs,
                                 agent: AgentPolicy, key: KeyMaterial, signedAt: bytes)
    requires SignVerifiedPolicy(h, template, req, inputs, agent, key, signedAt).Ok?
    ensures var a := SignVerifiedPolicy(h, template, req, inputs, agent, key, signedAt).value;
            var o := inputs.descriptor.ociRuntimeSpec;
            && !o.securityContext.privileged
            && (o.securityContext.allowPrivilegeEscalation ==>
                  multiset(LowerAll(o.capabilities.add)) == multiset(LowerAll(ROOTFUL_SUDO_CAPS)))
            && Template.Marks(a.regoText) == Template.Marks(template)
  {
    FloorIsExact(inputs.descriptor.ociRuntimeSpec);
    Template.SlotNames(inputs.descriptor);
    Template.RenderedMarks(template, Template.SlotsOf(inputs.descriptor));
  }

  /** The strings digested for an artifact whose metadata decodes. */
  function ArtifactPreimages(a: SignedArtifact): set<bytes> {
    {a.regoText, a.agentPolicyText}
    + match DecodeMetadata(a.metadata)
      case Some(m) => {Encode(MetadataRecords(m))}
      case None => {}
  }

  /** Equal signing inputs of two accepted artifacts mean equal policy text, equal agent
      policy text and equal decoded metadata, unless the strings digested collide. */
  lemma AcceptedArtifactBinding(h: Digest, verify: Verifier, a: SignedArtifact, b: SignedArtifact,
                                ka: Key, kb: Key)
    requires VerifySignedArtifact(h, verify, a, ka).Ok? && VerifySignedArtifact(h, verify, b, kb).Ok?
    requires SigningInput(h, a.metadata, h(a.regoText)) == SigningInput(h, b.metadata, h(b.regoText))
    ensures || (&& a.regoText == b.regoText && a.agentPolicyText == b.agentPolicyText
                && DecodeMetadata(a.metadata) == DecodeMetadata(b.metadata))
            || Collision(h, ArtifactPreimages(a) + ArtifactPreimages(b))
  {
    var ma, mb := DecodeMetadata(a.metadata).value, DecodeMetadata(b.metadata).value;
    ArtifactBinding(h, ma, mb, h(a.regoText), h(b.regoText));
    var s := ArtifactPreimages(a) + ArtifactPreimages(b);
    assert {Encode(MetadataRecords(ma)), Encode(MetadataRecords(mb))} <= s;
    if !Collision(h, s) {
      assert ma == mb;
      assert ma.agentPolicySha256 == h(a.agentPolicyText) && mb.agentPolicySha256 == h(b.agentPolicyText);
    }
  }

  /** An artifact accepted under an honest key: its holder signed an artifact input with
      the same policy digest and, unless strings collide, the same metadata. A signature
      on a descriptor, keyring or directive is never accepted as one on an artifact. */
  lemma ArtifactOrigin(h: Digest, verify: Verifier, honest: set<Key>, log: set<(Key, Message)>,
                       a: SignedArtifact, key: Key) returns (origin: ArtifactMetadata)
    requires Unforgeable(h, verify, honest, log) && key in honest
    requires VerifySignedArtifact(h, verify, a, key).Ok?
    ensures (key, ArtifactMessage(origin, h(a.regoText))) in log
    ensures || DecodeMetadata(a.metadata) == Some(origin)
            || Collision(h, ArtifactPreimages(a) + {Encode(MetadataRecords(origin))})
  {
    var received := DecodeMetadata(a.metadata).value;
    var m := LoggedSameKind(h, log, key, ArtifactMessage(received, h(a.regoText)));
    origin := m.metadata;
    ArtifactBinding(h, received, origin, h(a.regoText), m.regoHash);
    assert {Encode(MetadataRecords(received)), Encode(MetadataRecords(origin))}
        <= ArtifactPreimages(a) + {Encode(MetadataRecords(origin))};
  }

  // -------------------------------------------------------------- when it is signed

  lemma MetadataFits(m: ArtifactMetadata)
    ensures AllFit(MetadataRecords(m)) <==>
            && |m.platformReleaseVersion| < 0x1_0000_0000 && |m.policyTemplateId| < 0x1_0000_0000
            && |m.genpolicyVersionPin| < 0x1_0000_0000 && |m.signedAt| < 0x1_0000_0000
            && |m.keyId| < 0x1_0000_0000
  {
    var r := MetadataRecords(m);
    assert r[4] in r && r[5] in r && r[8] in r && r[9] in r && r[10] in r;
    assert forall x :: x in r ==> |x.tag| < 0x1_0000;
  }

  /** The descriptor's digests are those of the rendered policy and of the generated agent policy. */
  ghost predicate TextsAgree(h: Digest, template: bytes, d: DeploymentDescriptor, agent: AgentPolicy) {
    var rego := Template.RenderTemplate(template, Template.SlotsOf(d));
    && rego.Ok? && d.expectedKbsPolicyHash == h(rego.value)
    && d.expectedAgentPolicyHash == h(agent.text)
  }

  ghost predicate TextsShort(d: DeploymentDescriptor, agent: AgentPolicy, keyId: bytes, signedAt: bytes) {
    && |d.platformReleaseVersion| < 0x1_0000_0000 && |agent.versionPin| < 0x1_0000_0000
    && |signedAt| < 0x1_0000_0000 && |keyId| < 0x1_0000_0000
  }

  /** An artifact is signed exactly when the six names and digests agree, the security floor holds,
      the policy renders, both text digests agree, and the metadata texts fit the encoder. */
  lemma SignedExactly(h: Digest, template: bytes, req: SignRequest, inputs: VerifiedInputs,
                      agent: AgentPolicy, key: KeyMaterial, signedAt: bytes)
    ensures SignVerifiedPolicy(h, template, req, inputs, agent, key, signedAt).Ok? <==>
            && req.appId == inputs.descriptor.appId && req.deployId == inputs.descriptor.deployId
            && req.platformReleaseVersion == inputs.descriptor.platformReleaseVersion
            && inputs.descriptor.schemaVersion == Ascii("v1")
            && inputs.descriptor.policyTemplateId == Ascii("trustee-resource-policy-v1.1")
            && inputs.descriptor.policyTemplateSha256 == h(template)
            && SecurityFloor(inputs.descriptor.ociRuntimeSpec).None?
            && TextsAgree(h, template, inputs.descriptor, agent)
            && TextsShort(inputs.descriptor, agent, key.keyId, signedAt)
  {
    var d := inputs.descriptor;
    BuiltMetadataDecodes(d, inputs, h(template), h(agent.text), agent.versionPin, key.keyId, signedAt);
    MetadataFits(ArtifactMetadata(d.appId, d.deployId, inputs.coreHash, inputs.signingPubkey,
                                  d.platformReleaseVersion, TEMPLATE_ID, h(template), h(agent.text),
                                  agent.versionPin, signedAt, key.keyId));
    assert |TEMPLATE_ID| == 28;
  }

  /** What a signed artifact carries: the rendered policy, the agent policy, both digests, the
      signature of the signing input and the public key, each in its text form. */
  lemma SignedCarries(h: Digest, template: bytes, req: SignRequest, inputs: VerifiedInputs,
                      agent: AgentPolicy, key: KeyMaterial, signedAt: bytes)
    requires SignVerifiedPolicy(h, template, req, inputs, agent, key, signedAt).Ok?
    ensures var a := SignVerifiedPolicy(h, template, req, inputs, agent, key, signedAt).value;
            && Template.RenderTemplate(template, Template.SlotsOf(inputs.descriptor)) == Ok(a.regoText)
            && a.agentPolicyText == agent.text
            && HexDecode(a.regoSha256) == Some(h(a.regoText)) && HexDecode(a.agentPolicySha256) == Some(h(agent.text))
            && SigningInput(h, a.metadata, h(a.regoText)).Ok?
            && HexDecode(a.signature) == Some(key.sign(SigningInput(h, a.metadata, h(a.regoText)).value))
            && Base64Decode(a.verifyPubkeyB64) == Some(key.pubkey)
  {
    var a := SignVerifiedPolicy(h, template, req, inputs, agent, key, signedAt).value;
    HexRoundTrip(h(a.regoText));
    HexRoundTrip(h(agent.text));
    HexRoundTrip(key.sign(SigningInput(h, a.metadata, h(a.regoText)).value));
    Base64RoundTrip(key.pubkey);
  }

  /** An artifact is accepted exactly when its digests decode to those of its texts, the metadata
      repeats the agent digest's text, and the signature is a spelling, in hexadecimal or in base64, of
      64 bytes that verify the signing input. */
  lemma VerifiedExactly(h: Digest, verify: Verifier, a: SignedArtifact, key: Key)
    ensures VerifySignedArtifact(h, verify, a, key).Ok? <==>
            && HexDecode(a.regoSha256) == Some(h(a.regoText))
            && HexDecode(a.agentPolicySha256) == Some(h(a.agentPolicyText))
            && a.metadata.agentPolicySha256 == a.agentPolicySha256
            && SigningInput(h, a.metadata, h(a.regoText)).Ok?
            && exists s: bytes64 :: Spells(a.signature, s)
                                    && verify(key, SigningInput(h, a.metadata, h(a.regoText)).value, s)
  {
    SpellingsExactly(a.signature);
  }

  ghost predicate Spells(text: bytes, signature: bytes64) {
    HexDecode(text) == Some(signature) || text == Base64Encode(signature)
  }

  lemma SpellingsExactly(text: bytes)
    ensures forall s: bytes64 :: Spells(text, s) <==> DecodeSignature(text) == Ok(s)
  {
    forall s: bytes64 ensures Spells(text, s) <==> DecodeSignature(text) == Ok(s) {
      if DecodeSignature(text) == Ok(s) {
        OnlyTwoSpellings(text);
      }
      TwoSpellings(s);
    }
  }
}
