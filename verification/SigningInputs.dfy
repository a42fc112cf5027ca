/** Verification of the two signed envelopes (signing-service/src/policy.rs, keyring.rs and
    descriptor.rs) and where an accepted descriptor must have come from.

    A signature scheme is a parameter `verify(key, bytes, signature)`. Honest signers are
    described by a log of what each of them signed. */
module SigningInputs {
  import opened Bytes
  import opened Descriptor
  import opened Keyring
  import opened SigningMessages
  import opened ResourceNames

  type Verifier = (Key, bytes, bytes64) -> bool

  datatype DescriptorEnvelope = DescriptorEnvelope(
    descriptor: DeploymentDescriptor, signature: bytes64, signingKeyId: bytes, signingPubkey: Key)

  datatype KeyringEnvelope = KeyringEnvelope(
    keyring: OrgKeyring, signature: bytes64, signingPubkey: Key)

  datatype VerifyError =
    | OrgMismatch
    | KeyringSignerIsNotOwner
    | KeyringSignatureInvalid
    | OwnerIsNotOwnerMember
    | SignerIsNotDeployer
    | DescriptorKeyMismatch
    | DescriptorSignatureInvalid
    | DuplicateResourceName
    | EncoderPanic

  datatype VerifiedInputs = VerifiedInputs(
    descriptor: DeploymentDescriptor, signingPubkey: Key,
    coreHash: bytes32, keyringFingerprint: bytes32)

  predicate IsOwnerMember(m: Member, key: Key) {
    m.role == Owner && m.pubkey == key
  }

  function VerifyKeyring(h: Digest, verify: Verifier, e: KeyringEnvelope, owner: Key)
    : Result<OrgKeyring, VerifyError>
  {
    if e.signingPubkey != owner then Err(KeyringSignerIsNotOwner)
    else if !KeyringFits(h, e.keyring) then Err(EncoderPanic)
    else if !verify(owner, KeyringBytes(h, e.keyring), e.signature) then Err(KeyringSignatureInvalid)
    else if !exists m :: m in e.keyring.members && IsOwnerMember(m, owner) then
      Err(OwnerIsNotOwnerMember)
    else Ok(e.keyring)
  }

  /** The key of the first member that has the given key and may deploy. */
  function FindDeployer(members: seq<Member>, key: Key): Result<Key, VerifyError> {
    if members == [] then Err(SignerIsNotDeployer)
    else if members[0].pubkey == key && members[0].role.CanDeploy() then Ok(members[0].pubkey)
    else FindDeployer(members[1..], key)
  }

  function VerifyDescriptor(h: Digest, verify: Verifier, e: DescriptorEnvelope, expected: Key)
    : Result<DeploymentDescriptor, VerifyError>
  {
    if e.signingPubkey != expected then Err(DescriptorKeyMismatch)
    else if !DescriptorFits(h, e.descriptor) then Err(EncoderPanic)
    else if !verify(expected, DescriptorBytes(h, e.descriptor), e.signature) then
      Err(DescriptorSignatureInvalid)
    else Ok(e.descriptor)
  }

  function VerifySigningInputs(h: Digest, verify: Verifier, d: DescriptorEnvelope,
                               k: KeyringEnvelope, owner: Key)
    : Result<VerifiedInputs, VerifyError>
  {
    if d.descriptor.orgId != k.keyring.orgId then Err(OrgMismatch)
    else
      var keyring := VerifyKeyring(h, verify, k, owner);
      if keyring.Err? then Err(keyring.error)
      else
        var deployer := FindDeployer(keyring.value.members, d.signingPubkey);
        if deployer.Err? then Err(deployer.error)
        else
          var descriptor := VerifyDescriptor(h, verify, d, deployer.value);
          if descriptor.Err? then Err(descriptor.error)
          else if !UniqueResources(descriptor.value) then Err(DuplicateResourceName)
          else
            Ok(VerifiedInputs(descriptor.value, deployer.value,
                              h(CoreBytes(h, descriptor.value)), h(KeyringBytes(h, keyring.value))))
  }

  lemma {:induction false} FindDeployerCharacterised(members: seq<Member>, key: Key)
    ensures FindDeployer(members, key).Ok? <==> exists m :: m in members && m.pubkey == key
    ensures FindDeployer(members, key) in {Ok(key), Err(SignerIsNotDeployer)}
  {
    if members == [] {
    } else {
      FindDeployerCharacterised(members[1..], key);
      assert forall m :: m in members <==> m == members[0] || m in members[1..];
    }
  }

  /** What it takes to be accepted. In particular every member may deploy, and the key
      mismatch of the descriptor check can never be reported. */
  lemma AcceptedExactly(h: Digest, verify: Verifier, d: DescriptorEnvelope, k: KeyringEnvelope,
                        owner: Key)
    ensures VerifySigningInputs(h, verify, d, k, owner).Ok? <==>
            && d.descriptor.orgId == k.keyring.orgId
            && k.signingPubkey == owner
            && KeyringFits(h, k.keyring) && DescriptorFits(h, d.descriptor)
            && verify(owner, KeyringBytes(h, k.keyring), k.signature)
            && (exists m :: m in k.keyring.members && m.role == Owner && m.pubkey == owner)
            && (exists m :: m in k.keyring.members && m.pubkey == d.signingPubkey)
            && verify(d.signingPubkey, DescriptorBytes(h, d.descriptor), d.signature)
            && UniqueResources(d.descriptor)
  {
    if VerifySigningInputs(h, verify, d, k, owner).Ok? {
      AcceptedHasParts(h, verify, d, k, owner);
    }
    if PartsAccepted(h, verify, d, k, owner) {
      PartsAreAccepted(h, verify, d, k, owner);
    }
    KeyringAcceptedExactly(h, verify, k, owner);
    DescriptorAcceptedExactly(h, verify, d);
  }

  /** The checks in a row amount to the two envelope checks and what relates them. */
  ghost predicate PartsAccepted(h: Digest, verify: Verifier, d: DescriptorEnvelope, k: KeyringEnvelope, owner: Key) {
    && d.descriptor.orgId == k.keyring.orgId
    && VerifyKeyring(h, verify, k, owner).Ok?
    && (exists m :: m in k.keyring.members && m.pubkey == d.signingPubkey)
    && VerifyDescriptor(h, verify, d, d.signingPubkey).Ok?
    && UniqueResources(d.descriptor)
  }

  lemma AcceptedHasParts(h: Digest, verify: Verifier, d: DescriptorEnvelope, k: KeyringEnvelope, owner: Key)
    requires VerifySigningInputs(h, verify, d, k, owner).Ok?
    ensures PartsAccepted(h, verify, d, k, owner)
  {
    FindDeployerCharacterised(k.keyring.members, d.signingPubkey);
  }

  lemma PartsAreAccepted(h: Digest, verify: Verifier, d: DescriptorEnvelope, k: KeyringEnvelope, owner: Key)
    requires PartsAccepted(h, verify, d, k, owner)
    ensures VerifySigningInputs(h, verify, d, k, owner).Ok?
  {
    FindDeployerCharacterised(k.keyring.members, d.signingPubkey);
  }

  /** The second comparison of the descriptor's key never fails here: the deployer was found
      by that key. */
  lemma KeyMismatchUnreachable(h: Digest, verify: Verifier, d: DescriptorEnvelope, k: KeyringEnvelope,
                               owner: Key)
    ensures VerifySigningInputs(h, verify, d, k, owner) != Err(DescriptorKeyMismatch)
  {
    FindDeployerCharacterised(k.keyring.members, d.signingPubkey);
    KeyringErrors(h, verify, k, owner);
    DescriptorErrors(h, verify, d);
  }

  lemma KeyringErrors(h: Digest, verify: Verifier, e: KeyringEnvelope, owner: Key)
    ensures VerifyKeyring(h, verify, e, owner) != Err(DescriptorKeyMismatch)
  {
  }

  lemma DescriptorErrors(h: Digest, verify: Verifier, e: DescriptorEnvelope)
    ensures VerifyDescriptor(h, verify, e, e.signingPubkey) != Err(DescriptorKeyMismatch)
  {
  }

  lemma KeyringAcceptedExactly(h: Digest, verify: Verifier, e: KeyringEnvelope, owner: Key)
    ensures VerifyKeyring(h, verify, e, owner).Ok? <==>
            && e.signingPubkey == owner && KeyringFits(h, e.keyring)
            && verify(owner, KeyringBytes(h, e.keyring), e.signature)
            && exists m :: m in e.keyring.members && IsOwnerMember(m, owner)
    ensures VerifyKeyring(h, verify, e, owner).Ok? ==> VerifyKeyring(h, verify, e, owner).value == e.keyring
  {
  }

  lemma DescriptorAcceptedExactly(h: Digest, verify: Verifier, e: DescriptorEnvelope)
    ensures VerifyDescriptor(h, verify, e, e.signingPubkey).Ok? <==>
            DescriptorFits(h, e.descriptor) && verify(e.signingPubkey, DescriptorBytes(h, e.descriptor), e.signature)
    ensures VerifyDescriptor(h, verify, e, e.signingPubkey).Ok? ==>
              VerifyDescriptor(h, verify, e, e.signingPubkey).value == e.descriptor
  {
  }

  /** Honest keys only verify what their holders signed; `log` lists what that was, and
      a holder's own encoder did not panic. */
  ghost predicate Unforgeable(h: Digest, verify: Verifier, honest: set<Key>,
                              log: set<(Key, Message)>)
  {
    forall key: Key, signed: bytes, signature: bytes64 ::
      key in honest && verify(key, signed, signature) ==> Logged(h, log, key, signed)
  }

  ghost predicate Logged(h: Digest, log: set<(Key, Message)>, key: Key, signed: bytes) {
    exists m :: (key, m) in log && MessageFits(h, m) && SigningBytes(h, m) == signed
  }

  /** The message that an honest key signed to produce the bytes of `m` is of m's kind. */
  lemma LoggedSameKind(h: Digest, log: set<(Key, Message)>, key: Key, m: Message)
    returns (origin: Message)
    requires MessageFits(h, m) && Logged(h, log, key, SigningBytes(h, m))
    ensures (key, origin) in log && MessageFits(h, origin) && SameKind(origin, m)
    ensures SigningBytes(h, origin) == SigningBytes(h, m)
  {
    origin :| (key, origin) in log && MessageFits(h, origin)
              && SigningBytes(h, origin) == SigningBytes(h, m);
    KindsNeverShareBytes(h, origin, m);
  }

  /** An accepted keyring: the trusted owner signed an equivalent one. */
  lemma KeyringOrigin(h: Digest, verify: Verifier, honest: set<Key>, log: set<(Key, Message)>,
                      e: KeyringEnvelope, owner: Key) returns (origin: OrgKeyring)
    requires Unforgeable(h, verify, honest, log) && owner in honest
    requires VerifyKeyring(h, verify, e, owner).Ok?
    ensures (owner, KeyringMessage(origin)) in log
    ensures || KeyringEquivalent(origin, e.keyring)
            || Collision(h, KeyringPreimages(h, origin) + KeyringPreimages(h, e.keyring))
  {
    var m := LoggedSameKind(h, log, owner, KeyringMessage(e.keyring));
    origin := m.keyring;
    KeyringBinding(h, origin, e.keyring);
  }

  /** An accepted descriptor: the deployer key signed an equivalent one. */
  lemma DescriptorOrigin(h: Digest, verify: Verifier, honest: set<Key>, log: set<(Key, Message)>,
                         e: DescriptorEnvelope, key: Key) returns (origin: DeploymentDescriptor)
    requires Unforgeable(h, verify, honest, log) && key in honest
    requires VerifyDescriptor(h, verify, e, key).Ok?
    ensures (key, DescriptorMessage(origin)) in log
    ensures || Equivalent(origin, e.descriptor)
            || Collision(h, DescriptorPreimages(h, origin) + DescriptorPreimages(h, e.descriptor))
  {
    var m := LoggedSameKind(h, log, key, DescriptorMessage(e.descriptor));
    origin := m.descriptor;
    DescriptorBinding(h, origin, e.descriptor);
  }

  /** End-to-end provenance. Whenever both envelopes are accepted and the trusted owner is
      honest, the owner signed an equivalent keyring for the descriptor's organisation that
      lists the descriptor's signer; and if that signer is honest, it signed an equivalent
      descriptor. The only other possibility is a collision among the finitely many strings
      digested for the received and the signed value. One key may sign several kinds of
      message: that is why the proof needs `KindsNeverShareBytes`. */
  lemma Provenance(h: Digest, verify: Verifier, honest: set<Key>, log: set<(Key, Message)>,
                   d: DescriptorEnvelope, k: KeyringEnvelope, owner: Key)
    returns (keyring: OrgKeyring, descriptor: DeploymentDescriptor)
    requires Unforgeable(h, verify, honest, log)
    requires VerifySigningInputs(h, verify, d, k, owner).Ok?
    ensures var v := VerifySigningInputs(h, verify, d, k, owner).value;
            v.descriptor == d.descriptor && v.signingPubkey == d.signingPubkey
            && v.coreHash == h(CoreBytes(h, d.descriptor)) && UniqueResources(d.descriptor)
    ensures owner in honest ==>
              && (owner, KeyringMessage(keyring)) in log
              && (|| (&& KeyringEquivalent(keyring, k.keyring)
                      && keyring.orgId == d.descriptor.orgId
                      && (exists m :: m in keyring.members && IsOwnerMember(m, owner))
                      && (exists m :: m in keyring.members && m.pubkey == d.signingPubkey))
                  || Collision(h, KeyringPreimages(h, keyring) + KeyringPreimages(h, k.keyring)))
    ensures d.signingPubkey in honest ==>
              && (d.signingPubkey, DescriptorMessage(descriptor)) in log
              && (|| Equivalent(descriptor, d.descriptor)
                  || Collision(h, DescriptorPreimages(h, descriptor)
                                  + DescriptorPreimages(h, d.descriptor)))
  {
    keyring, descriptor := k.keyring, d.descriptor;
    AcceptedExactly(h, verify, d, k, owner);
    FindDeployerCharacterised(k.keyring.members, d.signingPubkey);
    var ownerMember :| ownerMember in k.keyring.members && IsOwnerMember(ownerMember, owner);
    var deployer :| deployer in k.keyring.members && deployer.pubkey == d.signingPubkey;
    if owner in honest {
      keyring := KeyringOrigin(h, verify, honest, log, k, owner);
      if KeyringEquivalent(keyring, k.keyring) {
        EquivalentMembers(keyring, k.keyring, ownerMember);
        EquivalentMembers(keyring, k.keyring, deployer);
      }
    }
    if d.signingPubkey in honest {
      descriptor := DescriptorOrigin(h, verify, honest, log, d, d.signingPubkey);
    }
  }

  /** What is passed on: the descriptor and its signer as received, and the digests of the core and of
      the keyring bytes. */
  lemma AcceptedValues(h: Digest, verify: Verifier, d: DescriptorEnvelope, k: KeyringEnvelope, owner: Key)
    requires VerifySigningInputs(h, verify, d, k, owner).Ok?
    ensures VerifySigningInputs(h, verify, d, k, owner).value
            == VerifiedInputs(d.descriptor, d.signingPubkey, h(CoreBytes(h, d.descriptor)),
                              h(KeyringBytes(h, k.keyring)))
  {
    FindDeployerCharacterised(k.keyring.members, d.signingPubkey);
  }
}
