/** What the canonical bytes hold: which value each literal label carries, read back with the
    decoder (signing-service/src/descriptor.rs, keyring.rs, main.rs and policy.rs). */
module CanonicalLayout {
  import opened Bytes
  import opened CanonicalEncoding
  import opened StableSort
  import opened Descriptor
  import opened Keyring
  import opened SigningMessages
  import TextCodecs

  /** The bytes decode to exactly these labels, in order, with these values. */
  ghost predicate Reads(b: bytes, labels: seq<string>, values: seq<bytes>) {
    && |labels| == |values|
    && Decode(b).Some? && |Decode(b).value| == |labels|
    && forall i :: 0 <= i < |labels| ==> Decode(b).value[i] == Record(Ascii(labels[i]), values[i])
  }

  lemma EncodedReads(records: seq<Record>, labels: seq<string>, values: seq<bytes>)
    requires AllFit(records) && |records| == |labels| == |values|
    requires forall i :: 0 <= i < |records| ==> records[i] == Record(Ascii(labels[i]), values[i])
    ensures Reads(Encode(records), labels, values)
  {
    DecodeEncode(records);
  }

  // ------------------------------------------------------------ integers and records

  function U16Bytes(n: nat): bytes {
    [n / 0x100 % 0x100, n % 0x100]
  }

  function U32Bytes(n: nat): bytes {
    [n / 0x100_0000 % 0x100, n / 0x1_0000 % 0x100, n / 0x100 % 0x100, n % 0x100]
  }

  lemma LowTwo(n: nat, width: nat)
    ensures BigEndian(n, width + 2) == BigEndian(n / 0x1_0000, width) + U16Bytes(n)
  {
    assert n / 256 / 256 == n / 0x1_0000;
    assert BigEndian(n / 256, width + 1) == BigEndian(n / 256 / 256, width) + [n / 256 % 256];
    assert BigEndian(n, width + 2) == BigEndian(n / 256, width + 1) + [n % 256];
  }

  lemma LowFour(n: nat, width: nat)
    ensures BigEndian(n, width + 4) == BigEndian(n / 0x1_0000_0000, width) + U32Bytes(n)
  {
    var m := n / 0x1_0000;
    LowTwo(n, width + 2);
    LowTwo(m, width);
    assert m / 0x1_0000 == n / 0x1_0000_0000 && m / 0x100 == n / 0x100_0000;
    assert U32Bytes(n) == U16Bytes(m) + U16Bytes(n);
  }

  lemma TwoBytes(n: nat)
    ensures BigEndian(n, 2) == U16Bytes(n)
  {
    LowTwo(n, 0);
  }

  lemma FourBytes(n: nat)
    ensures BigEndian(n, 4) == U32Bytes(n)
  {
    LowFour(n, 0);
  }

  lemma EightBytes(n: nat)
    ensures BigEndian(n, 8) == U32Bytes(n / 0x1_0000_0000) + U32Bytes(n)
  {
    LowFour(n, 4);
    FourBytes(n / 0x1_0000_0000);
  }

  /** One record on the wire: 2 bytes of label length, the label, 4 bytes of value length, the value,
      lengths with the high byte first. */
  lemma RecordLayout(r: Record)
    ensures EncodeRecord(r) == U16Bytes(|r.tag|) + r.tag + U32Bytes(|r.value|) + r.value
  {
    TwoBytes(|r.tag|);
    FourBytes(|r.value|);
  }

  // ---------------------------------------------------------------------- directive

  lemma DirectiveLayout(d: Directive)
    requires AllFit(DirectiveRecords(d))
    ensures Reads(Encode(DirectiveRecords(d)),
                  ["purpose", "org_id", "revoked_pubkey", "replacement_pubkey", "signed_at", "reason"],
                  [Ascii("enclava-recovery-v1"), d.orgId, d.revoked, d.replacement, d.signedAt, d.reason])
  {
    EncodedReads(DirectiveRecords(d),
                 ["purpose", "org_id", "revoked_pubkey", "replacement_pubkey", "signed_at", "reason"],
                 [Ascii("enclava-recovery-v1"), d.orgId, d.revoked, d.replacement, d.signedAt, d.reason]);
  }

  // ------------------------------------------------------------------------ artifact

  lemma MetadataLayout(m: ArtifactMetadata)
    requires AllFit(MetadataRecords(m))
    ensures Reads(Encode(MetadataRecords(m)),
                  ["app_id", "deploy_id", "descriptor_core_hash", "descriptor_signing_pubkey",
                   "platform_release_version", "policy_template_id", "policy_template_sha256",
                   "agent_policy_sha256", "genpolicy_version_pin", "signed_at", "key_id"],
                  [m.appId, m.deployId, m.descriptorCoreHash, m.descriptorSigningPubkey,
                   m.platformReleaseVersion, m.policyTemplateId, m.policyTemplateSha256,
                   m.agentPolicySha256, m.genpolicyVersionPin, m.signedAt, m.keyId])
  {
    EncodedReads(MetadataRecords(m),
                 ["app_id", "deploy_id", "descriptor_core_hash", "descriptor_signing_pubkey",
                  "platform_release_version", "policy_template_id", "policy_template_sha256",
                  "agent_policy_sha256", "genpolicy_version_pin", "signed_at", "key_id"],
                 [m.appId, m.deployId, m.descriptorCoreHash, m.descriptorSigningPubkey,
                  m.platformReleaseVersion, m.policyTemplateId, m.policyTemplateSha256,
                  m.agentPolicySha256, m.genpolicyVersionPin, m.signedAt, m.keyId]);
  }

  lemma ArtifactLayout(h: Digest, m: ArtifactMetadata, regoHash: bytes32)
    ensures Reads(Encode(ArtifactRecords(h, m, regoHash)), ["purpose", "metadata", "rego_sha256"],
                  [Ascii("enclava-policy-artifact-v1"), h(Encode(MetadataRecords(m))), regoHash])
  {
    EncodedReads(ArtifactRecords(h, m, regoHash), ["purpose", "metadata", "rego_sha256"],
                 [Ascii("enclava-policy-artifact-v1"), h(Encode(MetadataRecords(m))), regoHash]);
  }

  // ------------------------------------------------------------------------- keyring

  lemma KeyringLayout(h: Digest, k: OrgKeyring)
    requires AllFit(KeyringRecords(h, k))
    ensures Reads(KeyringBytes(h, k), ["purpose", "org_id", "version", "members", "updated_at"],
                  [Ascii("enclava-org-keyring-v1"), k.orgId,
                   U32Bytes(k.version / 0x1_0000_0000) + U32Bytes(k.version),
                   h(Encode(MemberListRecords(h, k.members))), k.updatedAt])
  {
    EightBytes(k.version);
    EncodedReads(KeyringRecords(h, k), ["purpose", "org_id", "version", "members", "updated_at"],
                 [Ascii("enclava-org-keyring-v1"), k.orgId,
                  U32Bytes(k.version / 0x1_0000_0000) + U32Bytes(k.version),
                  h(Encode(MemberListRecords(h, k.members))), k.updatedAt]);
  }

  lemma MemberLayout(m: Member)
    requires AllFit(MemberRecords(m))
    ensures Reads(Encode(MemberRecords(m)), ["user_id", "pubkey", "role", "added_at"],
                  [m.userId, m.pubkey,
                   if m.role == Owner then Ascii("owner")
                   else if m.role == Admin then Ascii("admin") else Ascii("deployer"),
                   m.addedAt])
  {
    EncodedReads(MemberRecords(m), ["user_id", "pubkey", "role", "added_at"],
                 [m.userId, m.pubkey, m.role.Text(), m.addedAt]);
  }

  /** The member list: one record per member in the order of user ids, members with one id in the
      order of the keyring; the label is the id's text, the value the digest of the member. */
  lemma MembersLayout(h: Digest, members: seq<Member>) returns (sorted: seq<Member>)
    requires AllFit(MemberListRecords(h, members))
    ensures Sorted(sorted, UserId) && SameGroups(sorted, members, UserId) && |sorted| == |members|
    ensures var list := Decode(Encode(MemberListRecords(h, members)));
            && list.Some? && |list.value| == |sorted|
            && forall i :: 0 <= i < |sorted| ==>
                 list.value[i] == Record(TextCodecs.UuidText(sorted[i].userId), h(Encode(MemberRecords(sorted[i]))))
  {
    sorted := Sort(members, UserId);
    SortProperties(members, UserId);
    DecodeEncode(MemberListRecords(h, members));
    assert |sorted| == |multiset(sorted)| == |multiset(members)| == |members|;
  }

  // ------------------------------------------------------------------- descriptor parts

  lemma SignerLayout(s: SignerIdentity)
    requires AllFit(SignerRecords(s))
    ensures Reads(Encode(SignerRecords(s)), ["subject", "issuer"], [s.subject, s.issuer])
  {
    EncodedReads(SignerRecords(s), ["subject", "issuer"], [s.subject, s.issuer]);
  }

  lemma SidecarLayout(s: Sidecars)
    requires AllFit(SidecarRecords(s))
    ensures Reads(Encode(SidecarRecords(s)), ["attestation_proxy", "caddy"],
                  [s.attestationProxyDigest, s.caddyDigest])
  {
    EncodedReads(SidecarRecords(s), ["attestation_proxy", "caddy"], [s.attestationProxyDigest, s.caddyDigest]);
  }

  lemma SecurityLayout(s: SecurityContext)
    ensures Reads(Encode(SecurityRecords(s)), ["run_as_user", "run_as_group", "flags"],
                  [U32Bytes(s.runAsUser), U32Bytes(s.runAsGroup),
                   [if s.readOnlyRootFs then 1 else 0, if s.allowPrivilegeEscalation then 1 else 0,
                    if s.privileged then 1 else 0]])
  {
    SecurityFits(s);
    FourBytes(s.runAsUser);
    FourBytes(s.runAsGroup);
    EncodedReads(SecurityRecords(s), ["run_as_user", "run_as_group", "flags"],
                 [U32Bytes(s.runAsUser), U32Bytes(s.runAsGroup),
                  [if s.readOnlyRootFs then 1 else 0, if s.allowPrivilegeEscalation then 1 else 0,
                   if s.privileged then 1 else 0]]);
  }

  lemma MountLayout(h: Digest, m: Mount)
    requires MountFits(h, m)
    ensures Reads(Encode(MountRecords(h, m)), ["source", "destination", "type", "options"],
                  [m.source, m.destination, m.mountType, h(Encode(StringListRecords(m.options)))])
  {
    EncodedReads(MountRecords(h, m), ["source", "destination", "type", "options"],
                 [m.source, m.destination, m.mountType, h(Encode(StringListRecords(m.options)))]);
  }

  lemma ResourcesLayout(h: Digest, r: Resources)
    ensures Reads(Encode(ResourceRecords(h, r)), ["requests", "limits"],
                  [h(Encode(EnvRecords(r.requests))), h(Encode(EnvRecords(r.limits)))])
  {
    EncodedReads(ResourceRecords(h, r), ["requests", "limits"],
                 [h(Encode(EnvRecords(r.requests))), h(Encode(EnvRecords(r.limits)))]);
  }

  lemma OciLayout(h: Digest, o: OciRuntimeSpec)
    requires OciFits(h, o)
    ensures Reads(Encode(OciRecords(h, o)),
                  ["command", "args", "env", "ports", "mounts", "capabilities_add", "capabilities_drop",
                   "security_context", "resources"],
                  [h(Encode(StringListRecords(o.command))), h(Encode(StringListRecords(o.args))),
                   h(Encode(EnvRecords(o.env))), h(Encode(PortRecords(o.ports))),
                   h(Encode(MountListRecords(h, o.mounts))),
                   h(Encode(StringListRecords(o.capabilities.add))),
                   h(Encode(StringListRecords(o.capabilities.drop))),
                   h(Encode(SecurityRecords(o.securityContext))), h(Encode(ResourceRecords(h, o.resources)))])
  {
    OciRecordsFit(h, o);
    EncodedReads(OciRecords(h, o),
                 ["command", "args", "env", "ports", "mounts", "capabilities_add", "capabilities_drop",
                  "security_context", "resources"],
                 [h(Encode(StringListRecords(o.command))), h(Encode(StringListRecords(o.args))),
                  h(Encode(EnvRecords(o.env))), h(Encode(PortRecords(o.ports))),
                  h(Encode(MountListRecords(h, o.mounts))),
                  h(Encode(StringListRecords(o.capabilities.add))),
                  h(Encode(StringListRecords(o.capabilities.drop))),
                  h(Encode(SecurityRecords(o.securityContext))), h(Encode(ResourceRecords(h, o.resources)))]);
  }

  // -------------------------------------------------------------------- lists by index

  /** The number that decimal digits denote. */
  function DecimalValue(digits: bytes): int {
    if digits == [] then 0 else DecimalValue(digits[..|digits| - 1]) * 10 + (digits[|digits| - 1] as int - 48)
  }

  /** An index is written in decimal digits without a leading zero. */
  lemma {:induction false} DecimalMeans(n: nat)
    ensures var t := TextCodecs.Decimal(n);
            && DecimalValue(t) == n && (forall c :: c in t ==> 48 <= c <= 57)
            && t != [] && (t[0] == 48 ==> n == 0)
  {
    var t := TextCodecs.Decimal(n);
    if n < 10 {
      assert t[..0] == [];
    } else {
      DecimalMeans(n / 10);
      assert t[..|t| - 1] == TextCodecs.Decimal(n / 10);
    }
  }

  /** The bytes decode to one record per item: a letter and the decimal index, and the value. */
  ghost predicate ReadsList(b: bytes, letter: byte, values: seq<bytes>) {
    && Decode(b).Some? && |Decode(b).value| == |values|
    && forall i :: 0 <= i < |values| ==>
         Decode(b).value[i] == Record([letter] + TextCodecs.Decimal(i), values[i])
  }

  lemma StringListLayout(items: seq<bytes>)
    requires AllFit(StringListRecords(items))
    ensures ReadsList(Encode(StringListRecords(items)), 'i' as int, items)
  {
    DecodeEncode(StringListRecords(items));
    assert Ascii("i") == ['i' as int];
  }

  lemma PortsLayout(ports: seq<Port>)
    requires AllFit(PortRecords(ports))
    ensures ReadsList(Encode(PortRecords(ports)), 'p' as int,
                      seq(|ports|, i requires 0 <= i < |ports| =>
                        U32Bytes(ports[i].containerPort) + ports[i].protocol))
  {
    DecodeEncode(PortRecords(ports));
    assert Ascii("p") == ['p' as int];
    forall i | 0 <= i < |ports|
      ensures BigEndian(ports[i].containerPort, 4) == U32Bytes(ports[i].containerPort)
    {
      FourBytes(ports[i].containerPort);
    }
  }

  lemma MountsLayout(h: Digest, mounts: seq<Mount>)
    requires AllFit(MountListRecords(h, mounts))
    ensures ReadsList(Encode(MountListRecords(h, mounts)), 'm' as int, MountDigests(h, mounts))
  {
    DecodeEncode(MountListRecords(h, mounts));
    forall i | 0 <= i < |mounts|
      ensures MountListRecords(h, mounts)[i] == Record(['m' as int] + TextCodecs.Decimal(i), MountDigests(h, mounts)[i])
    {
      MountDigestAt(h, mounts, i);
    }
  }

  /** The digests of the mounts' own encodings, in order. */
  function MountDigests(h: Digest, mounts: seq<Mount>): seq<bytes> {
    seq(|mounts|, i requires 0 <= i < |mounts| => h(Encode(MountRecords(h, mounts[i]))))
  }

  lemma MountDigestAt(h: Digest, mounts: seq<Mount>, i: nat)
    requires i < |mounts|
    ensures MountListRecords(h, mounts)[i] == Record(['m' as int] + TextCodecs.Decimal(i), MountDigests(h, mounts)[i])
  {
    var digest: bytes32 := h(Encode(MountRecords(h, mounts[i])));
    assert MountListRecords(h, mounts)[i] == Record(IndexTag("m", i), digest);
    assert Ascii("m") == ['m' as int];
  }

  // ----------------------------------------------------------------- entries by name

  /** Byte order: a prefix, or the first difference decides, the smaller byte first. */
  lemma {:induction false} LexMeans(a: bytes, b: bytes)
    ensures LexLeq(a, b) <==>
            a <= b || exists k :: 0 <= k < |a| && k < |b| && a[..k] == b[..k] && a[k] < b[k]
  {
    if a == [] {
    } else if b == [] || a[0] > b[0] {
      forall k | 0 <= k < |a| && k < |b| && a[..k] == b[..k] ensures a[k] >= b[k] {
        EqualHeads(a, b, k);
      }
    } else if a[0] < b[0] {
      assert a[..0] == b[..0];
    } else {
      LexMeans(a[1..], b[1..]);
      TailsDecide(a, b);
    }
  }

  lemma EqualHeads(a: bytes, b: bytes, k: nat)
    requires k < |a| && k < |b|
    ensures k > 0 && a[..k] == b[..k] ==> a[0] == b[0]
  {
    assert k > 0 ==> a[..k][0] == a[0] && b[..k][0] == b[0];
  }

  lemma TailsDecide(a: bytes, b: bytes)
    requires a != [] && b != [] && a[0] == b[0]
    ensures a <= b <==> a[1..] <= b[1..]
    ensures (exists k :: 0 <= k < |a| && k < |b| && a[..k] == b[..k] && a[k] < b[k]) <==>
            exists k :: 0 <= k < |a[1..]| && k < |b[1..]| && a[1..][..k] == b[1..][..k] && a[1..][k] < b[1..][k]
  {
    assert a == [a[0]] + a[1..] && b == [b[0]] + b[1..];
    if k :| 0 <= k < |a| && k < |b| && a[..k] == b[..k] && a[k] < b[k] {
      assert a[1..][..k - 1] == a[..k][1..] && b[1..][..k - 1] == b[..k][1..];
    }
    if k :| 0 <= k < |a[1..]| && k < |b[1..]| && a[1..][..k] == b[1..][..k] && a[1..][k] < b[1..][k] {
      assert a[..k + 1] == [a[0]] + a[1..][..k] && b[..k + 1] == [b[0]] + b[1..][..k];
    }
  }

  /** Name-value lists: one record per entry, ascending by name, entries with one name in the order
      of the list; the label is the name. */
  lemma EntriesLayout(env: seq<EnvVar>) returns (sorted: seq<EnvVar>)
    requires AllFit(EnvRecords(env))
    ensures Sorted(sorted, EnvName) && SameGroups(sorted, env, EnvName) && |sorted| == |env|
    ensures var list := Decode(Encode(EnvRecords(env)));
            && list.Some? && |list.value| == |sorted|
            && forall i :: 0 <= i < |sorted| ==> list.value[i] == Record(sorted[i].name, sorted[i].value)
  {
    sorted := Sort(env, EnvName);
    SortProperties(env, EnvName);
    DecodeEncode(EnvRecords(env));
    assert |sorted| == |multiset(sorted)| == |multiset(env)| == |env|;
  }

  // ------------------------------------------------------------ descriptor, by label

  /** The value of the first record with a label. */
  function ValueOf(records: seq<Record>, tag: bytes): Option<bytes> {
    if records == [] then None
    else if records[0].tag == tag then Some(records[0].value)
    else ValueOf(records[1..], tag)
  }

  lemma {:induction false} ValueAt(records: seq<Record>, k: nat)
    requires k < |records| && forall j :: 0 <= j < k ==> records[j].tag != records[k].tag
    ensures ValueOf(records, records[k].tag) == Some(records[k].value)
  {
    if k == 0 {
    } else {
      assert forall j :: 0 <= j < k - 1 ==> records[1..][j] == records[j + 1];
      ValueAt(records[1..], k - 1);
    }
  }

  /** The labels of a descriptor encoding, in order. */
  function DescriptorLabels(flag: bool, anchors: bool): seq<string> {
    ["purpose", "schema_version", "org_id", "org_slug", "app_id", "app_name", "deploy_id",
     "created_at", "nonce", "app_domain", "tee_domain", "custom_domains", "namespace",
     "service_account", "identity_hash", "image_ref", "image_digest", "signer_identity",
     "oci_runtime_spec", "sidecars", "api_signing_pubkey", "expected_firmware_measurement",
     "expected_runtime_class", "kbs_resource_path", "unlock_mode", "policy_template_id",
     "policy_template_sha256", "platform_release_version"]
    + (if flag then ["independent_verification"] else [])
    + if anchors then ["expected_agent_policy_hash", "expected_cc_init_data_hash", "expected_kbs_policy_hash"]
      else []
  }

  /** A number that tells the labels apart: the length, the first character and one more. */
  function LabelKey(s: string): int {
    if |s| < 2 then 0
    else |s| * 0x1_0000 + s[0] as int % 256 * 0x100 + (if |s| == 26 then s[9] else s[1]) as int % 256
  }

  function TagKey(b: bytes): int {
    if |b| < 2 then 0
    else |b| * 0x1_0000 + (b[0] as int) * 0x100 + if |b| == 26 then b[9] else b[1]
  }

  function LabelKeys(): seq<int> {
    [487541, 947043, 421746, 552818, 418160, 549232, 615525, 680818, 355951, 680304, 685157, 942965,
     618081, 1012581, 878948, 616813, 813421, 1012585, 1077091, 553833, 1204592, 1926520, 1467768,
     1141602, 750958, 1208431, 1470575, 1601644, 1599854, 1729889, 1729891, 1598840]
  }

  lemma KeysDiffer()
    ensures |LabelKeys()| == 32
    ensures forall i, j :: 0 <= i < j < 32 ==> LabelKeys()[i] != LabelKeys()[j]
  {
  }

  lemma FirstKeys(flag: bool, anchors: bool)
    ensures |DescriptorLabels(flag, anchors)| == 28 + (if flag then 1 else 0) + if anchors then 3 else 0
    ensures forall i :: 0 <= i < 10 ==> LabelKey(DescriptorLabels(flag, anchors)[i]) == LabelKeys()[i]
  {
  }

  lemma MiddleKeys(flag: bool, anchors: bool)
    ensures forall i :: 10 <= i < 20 ==> LabelKey(DescriptorLabels(flag, anchors)[i]) == LabelKeys()[i]
  {
  }

  lemma LastKeys(flag: bool, anchors: bool)
    ensures forall i :: 20 <= i < 28 ==> LabelKey(DescriptorLabels(flag, anchors)[i]) == LabelKeys()[i]
  {
  }

  lemma ExtraKeys(flag: bool, anchors: bool)
    ensures var labels := DescriptorLabels(flag, anchors);
            && (flag ==> |labels| > 28 && LabelKey(labels[28]) == LabelKeys()[28])
            && (anchors ==>
                  var n := if flag then 29 else 28;
                  && |labels| == n + 3 && LabelKey(labels[n]) == LabelKeys()[29]
                  && LabelKey(labels[n + 1]) == LabelKeys()[30] && LabelKey(labels[n + 2]) == LabelKeys()[31])
  {
  }

  lemma LabelsDiffer(flag: bool, anchors: bool)
    ensures var labels := DescriptorLabels(flag, anchors);
            forall i, j :: 0 <= i < j < |labels| ==> LabelKey(labels[i]) != LabelKey(labels[j])
  {
    KeysDiffer();
    FirstKeys(flag, anchors);
    MiddleKeys(flag, anchors);
    LastKeys(flag, anchors);
    ExtraKeys(flag, anchors);
    var labels := DescriptorLabels(flag, anchors);
    var skip := if flag then 0 else 1;
    forall i | 0 <= i < |labels|
      ensures LabelKey(labels[i]) == LabelKeys()[if i < 28 then i else i + skip]
    {
    }
  }

  /** The value that the bytes hold under a label. */
  function At(b: bytes, name: string): Option<bytes> {
    if Decode(b).None? then None else ValueOf(Decode(b).value, Ascii(name))
  }

  lemma ReadsAt(b: bytes, labels: seq<string>, values: seq<bytes>, k: nat)
    requires Reads(b, labels, values) && k < |labels|
    requires forall i, j :: 0 <= i < j < |labels| ==> LabelKey(labels[i]) != LabelKey(labels[j])
    ensures At(b, labels[k]) == Some(values[k])
  {
    var records := Decode(b).value;
    forall j | 0 <= j < k ensures records[j].tag != records[k].tag {
      assert TagKey(Ascii(labels[j])) == LabelKey(labels[j]);
      assert TagKey(Ascii(labels[k])) == LabelKey(labels[k]);
    }
    ValueAt(records, k);
  }

  // ----------------------------------------------------------------- descriptor, read back

  /** The values of a descriptor encoding, as the record functions list them. */
  function RecordValues(records: seq<Record>): seq<bytes> {
    seq(|records|, i requires 0 <= i < |records| => records[i].value)
  }

  lemma FirstTags(h: Digest, d: DeploymentDescriptor)
    ensures forall i :: 0 <= i < 9 ==> FieldRecords(h, d)[i].tag == Ascii(DescriptorLabels(true, true)[i + 1])
  {
  }

  lemma MiddleTags(h: Digest, d: DeploymentDescriptor)
    ensures forall i :: 9 <= i < 18 ==> FieldRecords(h, d)[i].tag == Ascii(DescriptorLabels(true, true)[i + 1])
  {
  }

  lemma LastTags(h: Digest, d: DeploymentDescriptor)
    ensures forall i :: 18 <= i < 27 ==> FieldRecords(h, d)[i].tag == Ascii(DescriptorLabels(true, true)[i + 1])
  {
  }

  lemma SameLabels(flag: bool, anchors: bool)
    ensures |DescriptorLabels(flag, anchors)| >= 28
    ensures forall i :: 0 <= i < 28 ==> DescriptorLabels(flag, anchors)[i] == DescriptorLabels(true, true)[i]
  {
  }

  lemma DescriptorTags(h: Digest, d: DeploymentDescriptor, purpose: bytes, anchors: bool)
    ensures var records := DescriptorRecords(h, d, purpose, anchors);
            var labels := DescriptorLabels(d.independentVerification, anchors);
            && |records| == |labels|
            && forall i :: 0 <= i < |records| ==> records[i].tag == Ascii(labels[i])
  {
    FirstTags(h, d);
    MiddleTags(h, d);
    LastTags(h, d);
    SameLabels(d.independentVerification, anchors);
    TagsTogether(h, d, purpose, anchors);
  }

  lemma TagsTogether(h: Digest, d: DeploymentDescriptor, purpose: bytes, anchors: bool)
    requires forall i :: 0 <= i < 27 ==> FieldRecords(h, d)[i].tag == Ascii(DescriptorLabels(true, true)[i + 1])
    ensures var records := DescriptorRecords(h, d, purpose, anchors);
            var labels := DescriptorLabels(d.independentVerification, anchors);
            && |records| == |labels|
            && forall i :: 0 <= i < |records| ==> records[i].tag == Ascii(labels[i])
  {
    var labels := DescriptorLabels(d.independentVerification, anchors);
    var records := DescriptorRecords(h, d, purpose, anchors);
    SameLabels(d.independentVerification, anchors);
    assert labels[0] == "purpose";
    forall i | 1 <= i < 28 ensures records[i].tag == Ascii(labels[i]) {
      assert records[i] == FieldRecords(h, d)[i - 1];
      assert labels[i] == DescriptorLabels(true, true)[i - 1 + 1];
    }
  }

  /** Both encodings read back, each label with the value that the record functions give it. */
  lemma DescriptorReads(h: Digest, d: DeploymentDescriptor, full: bool)
    requires DescriptorFits(h, d)
    ensures Reads(if full then DescriptorBytes(h, d) else CoreBytes(h, d),
                  DescriptorLabels(d.independentVerification, full),
                  RecordValues(DescriptorRecords(h, d, if full then DESCRIPTOR_PURPOSE else CORE_PURPOSE, full)))
  {
    var records := DescriptorRecords(h, d, if full then DESCRIPTOR_PURPOSE else CORE_PURPOSE, full);
    if !full {
      CoreRecordsFit(h, d);
    }
    DescriptorTags(h, d, if full then DESCRIPTOR_PURPOSE else CORE_PURPOSE, full);
    EncodedReads(records, DescriptorLabels(d.independentVerification, full), RecordValues(records));
  }

  lemma FieldAt(h: Digest, d: DeploymentDescriptor, b: bytes, i: nat, name: string)
    requires FieldsFound(h, d, b) && i < 27 && DescriptorLabels(true, true)[i + 1] == name
    ensures At(b, name) == Some(FieldRecords(h, d)[i].value)
  {
  }

  /** Each field record is found under its own label. */
  ghost predicate FieldsFound(h: Digest, d: DeploymentDescriptor, b: bytes) {
    forall i :: 0 <= i < 27 ==> At(b, DescriptorLabels(true, true)[i + 1]) == Some(FieldRecords(h, d)[i].value)
  }

  lemma FieldsAreFound(h: Digest, d: DeploymentDescriptor, full: bool)
    requires DescriptorFits(h, d)
    ensures FieldsFound(h, d, if full then DescriptorBytes(h, d) else CoreBytes(h, d))
  {
    var purpose := if full then DESCRIPTOR_PURPOSE else CORE_PURPOSE;
    DescriptorReads(h, d, full);
    LabelsDiffer(d.independentVerification, full);
    SameLabels(d.independentVerification, full);
    FieldsInRecords(h, d, purpose, full);
    ReadsFields(if full then DescriptorBytes(h, d) else CoreBytes(h, d),
                DescriptorLabels(d.independentVerification, full), DescriptorLabels(true, true),
                DescriptorRecords(h, d, purpose, full), FieldRecords(h, d));
  }

  lemma ReadsFields(b: bytes, labels: seq<string>, names: seq<string>, records: seq<Record>, fields: seq<Record>)
    requires Reads(b, labels, RecordValues(records)) && |labels| >= 28 && |names| >= 28 && |fields| == 27
    requires forall i, j :: 0 <= i < j < |labels| ==> LabelKey(labels[i]) != LabelKey(labels[j])
    requires forall i :: 0 <= i < 28 ==> labels[i] == names[i]
    requires |records| >= 28 && forall i :: 0 <= i < 27 ==> records[i + 1] == fields[i]
    ensures forall i :: 0 <= i < 27 ==> At(b, names[i + 1]) == Some(fields[i].value)
  {
    forall i | 0 <= i < 27 ensures At(b, names[i + 1]) == Some(fields[i].value) {
      assert labels[i + 1] == names[i + 1];
      ReadsAt(b, labels, RecordValues(records), i + 1);
    }
  }

  lemma FieldsInRecords(h: Digest, d: DeploymentDescriptor, purpose: bytes, anchors: bool)
    ensures |DescriptorRecords(h, d, purpose, anchors)| >= 28
    ensures forall i :: 0 <= i < 27 ==> DescriptorRecords(h, d, purpose, anchors)[i + 1] == FieldRecords(h, d)[i]
  {
  }

  lemma OrgLabels()
    ensures DescriptorLabels(true, true)[1] == "schema_version"
    ensures DescriptorLabels(true, true)[2] == "org_id"
    ensures DescriptorLabels(true, true)[3] == "org_slug"
    ensures DescriptorLabels(true, true)[4] == "app_id"
  {
  }

  lemma OrgFields(h: Digest, d: DeploymentDescriptor)
    ensures FieldRecords(h, d)[0].value == d.schemaVersion
    ensures FieldRecords(h, d)[1].value == d.orgId
    ensures FieldRecords(h, d)[2].value == d.orgSlug
    ensures FieldRecords(h, d)[3].value == d.appId
  {
  }

  /** Schema, organisation and application id. */
  lemma OrgValues(h: Digest, d: DeploymentDescriptor, b: bytes)
    requires FieldsFound(h, d, b)
    ensures At(b, "schema_version") == Some(d.schemaVersion)
    ensures At(b, "org_id") == Some(d.orgId)
    ensures At(b, "org_slug") == Some(d.orgSlug)
    ensures At(b, "app_id") == Some(d.appId)
  {
    SchemaValues(h, d, b);
    OrgLabels();
    OrgFields(h, d);
    FieldAt(h, d, b, 2, "org_slug");
    FieldAt(h, d, b, 3, "app_id");
  }

  lemma SchemaValues(h: Digest, d: DeploymentDescriptor, b: bytes)
    requires FieldsFound(h, d, b)
    ensures At(b, "schema_version") == Some(d.schemaVersion)
    ensures At(b, "org_id") == Some(d.orgId)
  {
    OrgLabels();
    OrgFields(h, d);
    FieldAt(h, d, b, 0, "schema_version");
    FieldAt(h, d, b, 1, "org_id");
  }

  lemma AppLabels()
    ensures DescriptorLabels(true, true)[5] == "app_name"
    ensures DescriptorLabels(true, true)[6] == "deploy_id"
    ensures DescriptorLabels(true, true)[7] == "created_at"
    ensures DescriptorLabels(true, true)[8] == "nonce"
  {
  }

  lemma AppFields(h: Digest, d: DeploymentDescriptor)
    ensures FieldRecords(h, d)[4].value == d.appName
    ensures FieldRecords(h, d)[5].value == d.deployId
    ensures FieldRecords(h, d)[6].value == d.createdAt
    ensures FieldRecords(h, d)[7].value == d.nonce
  {
  }

  /** Application name, deployment, creation time and nonce. */
  lemma AppValues(h: Digest, d: DeploymentDescriptor, b: bytes)
    requires FieldsFound(h, d, b)
    ensures At(b, "app_name") == Some(d.appName)
    ensures At(b, "deploy_id") == Some(d.deployId)
    ensures At(b, "created_at") == Some(d.createdAt)
    ensures At(b, "nonce") == Some(d.nonce)
  {
    AppLabels();
    AppFields(h, d);
    FieldAt(h, d, b, 4, "app_name");
    FieldAt(h, d, b, 5, "deploy_id");
    FieldAt(h, d, b, 6, "created_at");
    FieldAt(h, d, b, 7, "nonce");
  }

  lemma PlaceLabels()
    ensures DescriptorLabels(true, true)[9] == "app_domain"
    ensures DescriptorLabels(true, true)[10] == "tee_domain"
    ensures DescriptorLabels(true, true)[11] == "custom_domains"
    ensures DescriptorLabels(true, true)[12] == "namespace"
    ensures DescriptorLabels(true, true)[13] == "service_account"
    ensures DescriptorLabels(true, true)[14] == "identity_hash"
  {
  }

  lemma PlaceFields(h: Digest, d: DeploymentDescriptor)
    ensures FieldRecords(h, d)[8].value == d.appDomain
    ensures FieldRecords(h, d)[9].value == d.teeDomain
    ensures FieldRecords(h, d)[10].value == h(Encode(StringListRecords(d.customDomains)))
    ensures FieldRecords(h, d)[11].value == d.namespace
    ensures FieldRecords(h, d)[12].value == d.serviceAccount
    ensures FieldRecords(h, d)[13].value == d.identityHash
  {
  }

  /** Domains, namespace, service account and identity. */
  lemma PlaceValues(h: Digest, d: DeploymentDescriptor, b: bytes)
    requires FieldsFound(h, d, b)
    ensures At(b, "app_domain") == Some(d.appDomain)
    ensures At(b, "tee_domain") == Some(d.teeDomain)
    ensures At(b, "custom_domains") == Some(h(Encode(StringListRecords(d.customDomains))))
    ensures At(b, "namespace") == Some(d.namespace)
    ensures At(b, "service_account") == Some(d.serviceAccount)
    ensures At(b, "identity_hash") == Some(d.identityHash)
  {
    PlaceLabels();
    PlaceFields(h, d);
    FieldAt(h, d, b, 8, "app_domain");
    FieldAt(h, d, b, 9, "tee_domain");
    FieldAt(h, d, b, 10, "custom_domains");
    FieldAt(h, d, b, 11, "namespace");
    FieldAt(h, d, b, 12, "service_account");
    FieldAt(h, d, b, 13, "identity_hash");
  }

  lemma ImageLabels()
    ensures DescriptorLabels(true, true)[15] == "image_ref"
    ensures DescriptorLabels(true, true)[16] == "image_digest"
    ensures DescriptorLabels(true, true)[17] == "signer_identity"
    ensures DescriptorLabels(true, true)[18] == "oci_runtime_spec"
    ensures DescriptorLabels(true, true)[19] == "sidecars"
    ensures DescriptorLabels(true, true)[20] == "api_signing_pubkey"
    ensures DescriptorLabels(true, true)[21] == "expected_firmware_measurement"
  {
  }

  lemma ImageFields(h: Digest, d: DeploymentDescriptor)
    ensures FieldRecords(h, d)[14].value == d.imageRef
    ensures FieldRecords(h, d)[15].value == d.imageDigest
    ensures FieldRecords(h, d)[16].value == h(Encode(SignerRecords(d.signerIdentity)))
    ensures FieldRecords(h, d)[17].value == h(Encode(OciRecords(h, d.ociRuntimeSpec)))
    ensures FieldRecords(h, d)[18].value == h(Encode(SidecarRecords(d.sidecars)))
    ensures FieldRecords(h, d)[19].value == d.apiSigningPubkey
    ensures FieldRecords(h, d)[20].value == d.expectedFirmwareMeasurement.AsBytes()
  {
  }

  /** Image, signer, runtime spec, sidecars, key and measurement. */
  lemma ImageValues(h: Digest, d: DeploymentDescriptor, b: bytes)
    requires FieldsFound(h, d, b)
    ensures At(b, "image_ref") == Some(d.imageRef)
    ensures At(b, "image_digest") == Some(d.imageDigest)
    ensures At(b, "signer_identity") == Some(h(Encode(SignerRecords(d.signerIdentity))))
    ensures At(b, "oci_runtime_spec") == Some(h(Encode(OciRecords(h, d.ociRuntimeSpec))))
    ensures At(b, "sidecars") == Some(h(Encode(SidecarRecords(d.sidecars))))
    ensures At(b, "api_signing_pubkey") == Some(d.apiSigningPubkey)
    ensures (d.expectedFirmwareMeasurement.Legacy? ==>
               At(b, "expected_firmware_measurement") == Some(d.expectedFirmwareMeasurement.legacy))
    ensures (d.expectedFirmwareMeasurement.Full? ==>
               At(b, "expected_firmware_measurement") == Some(d.expectedFirmwareMeasurement.full))
  {
    ImageLabels();
    ImageFields(h, d);
    FieldAt(h, d, b, 14, "image_ref");
    FieldAt(h, d, b, 15, "image_digest");
    FieldAt(h, d, b, 16, "signer_identity");
    FieldAt(h, d, b, 17, "oci_runtime_spec");
    FieldAt(h, d, b, 18, "sidecars");
    FieldAt(h, d, b, 19, "api_signing_pubkey");
    FieldAt(h, d, b, 20, "expected_firmware_measurement");
  }

  lemma PolicyLabels()
    ensures DescriptorLabels(true, true)[22] == "expected_runtime_class"
    ensures DescriptorLabels(true, true)[23] == "kbs_resource_path"
    ensures DescriptorLabels(true, true)[24] == "unlock_mode"
    ensures DescriptorLabels(true, true)[25] == "policy_template_id"
    ensures DescriptorLabels(true, true)[26] == "policy_template_sha256"
    ensures DescriptorLabels(true, true)[27] == "platform_release_version"
  {
  }

  lemma PolicyFields(h: Digest, d: DeploymentDescriptor)
    ensures FieldRecords(h, d)[21].value == d.expectedRuntimeClass
    ensures FieldRecords(h, d)[22].value == d.kbsResourcePath
    ensures FieldRecords(h, d)[23].value == d.unlockMode
    ensures FieldRecords(h, d)[24].value == d.policyTemplateId
    ensures FieldRecords(h, d)[25].value == d.policyTemplateSha256
    ensures FieldRecords(h, d)[26].value == d.platformReleaseVersion
  {
  }

  /** Runtime class, resource path, unlock mode, template and release. */
  lemma PolicyValues(h: Digest, d: DeploymentDescriptor, b: bytes)
    requires FieldsFound(h, d, b)
    ensures At(b, "expected_runtime_class") == Some(d.expectedRuntimeClass)
    ensures At(b, "kbs_resource_path") == Some(d.kbsResourcePath)
    ensures At(b, "unlock_mode") == Some(d.unlockMode)
    ensures At(b, "policy_template_id") == Some(d.policyTemplateId)
    ensures At(b, "policy_template_sha256") == Some(d.policyTemplateSha256)
    ensures At(b, "platform_release_version") == Some(d.platformReleaseVersion)
  {
    PolicyLabels();
    PolicyFields(h, d);
    FieldAt(h, d, b, 21, "expected_runtime_class");
    FieldAt(h, d, b, 22, "kbs_resource_path");
    FieldAt(h, d, b, 23, "unlock_mode");
    FieldAt(h, d, b, 24, "policy_template_id");
    FieldAt(h, d, b, 25, "policy_template_sha256");
    FieldAt(h, d, b, 26, "platform_release_version");
  }

  /** A label at a known place is found with the value there. */
  lemma PlaceFound(h: Digest, d: DeploymentDescriptor, full: bool, k: nat, name: string, value: bytes)
    requires DescriptorFits(h, d)
    requires var purpose := if full then DESCRIPTOR_PURPOSE else CORE_PURPOSE;
             var labels := DescriptorLabels(d.independentVerification, full);
             var records := DescriptorRecords(h, d, purpose, full);
             k < |labels| && labels[k] == name && k < |records| && records[k].value == value
    ensures At(if full then DescriptorBytes(h, d) else CoreBytes(h, d), name) == Some(value)
  {
    var purpose := if full then DESCRIPTOR_PURPOSE else CORE_PURPOSE;
    DescriptorReads(h, d, full);
    LabelsDiffer(d.independentVerification, full);
    ReadsAt(if full then DescriptorBytes(h, d) else CoreBytes(h, d),
            DescriptorLabels(d.independentVerification, full),
            RecordValues(DescriptorRecords(h, d, purpose, full)), k);
  }

  lemma PurposeValue(h: Digest, d: DeploymentDescriptor, full: bool)
    requires DescriptorFits(h, d)
    ensures At(if full then DescriptorBytes(h, d) else CoreBytes(h, d), "purpose")
            == Some(Ascii(if full then "enclava-deployment-descriptor-v1"
                          else "enclava-deployment-descriptor-core-v1"))
  {
    var purpose := if full then DESCRIPTOR_PURPOSE else CORE_PURPOSE;
    FirstPlace(h, d, purpose, full);
    PlaceFound(h, d, full, 0, "purpose", purpose);
  }

  lemma FlagValue(h: Digest, d: DeploymentDescriptor, full: bool)
    requires DescriptorFits(h, d) && d.independentVerification
    ensures At(if full then DescriptorBytes(h, d) else CoreBytes(h, d), "independent_verification")
            == Some(Ascii("true"))
  {
    FlagPlace(h, d, if full then DESCRIPTOR_PURPOSE else CORE_PURPOSE, full);
    PlaceFound(h, d, full, 28, "independent_verification", Ascii("true"));
  }

  lemma AnchorValues(h: Digest, d: DeploymentDescriptor)
    requires DescriptorFits(h, d)
    ensures At(DescriptorBytes(h, d), "expected_agent_policy_hash") == Some(d.expectedAgentPolicyHash)
    ensures At(DescriptorBytes(h, d), "expected_cc_init_data_hash") == Some(d.expectedCcInitDataHash)
    ensures At(DescriptorBytes(h, d), "expected_kbs_policy_hash") == Some(d.expectedKbsPolicyHash)
  {
    var n := if d.independentVerification then 29 else 28;
    AnchorPlaces(h, d);
    PlaceFound(h, d, true, n, "expected_agent_policy_hash", d.expectedAgentPolicyHash);
    PlaceFound(h, d, true, n + 1, "expected_cc_init_data_hash", d.expectedCcInitDataHash);
    PlaceFound(h, d, true, n + 2, "expected_kbs_policy_hash", d.expectedKbsPolicyHash);
  }

  lemma FirstPlace(h: Digest, d: DeploymentDescriptor, purpose: bytes, anchors: bool)
    ensures DescriptorLabels(d.independentVerification, anchors)[0] == "purpose"
    ensures DescriptorRecords(h, d, purpose, anchors)[0].value == purpose
  {
  }

  lemma FlagPlace(h: Digest, d: DeploymentDescriptor, purpose: bytes, anchors: bool)
    requires d.independentVerification
    ensures |DescriptorLabels(true, anchors)| > 28 && |DescriptorRecords(h, d, purpose, anchors)| > 28
    ensures DescriptorLabels(true, anchors)[28] == "independent_verification"
    ensures DescriptorRecords(h, d, purpose, anchors)[28].value == Ascii("true")
  {
  }

  lemma AnchorPlaces(h: Digest, d: DeploymentDescriptor)
    ensures var labels := DescriptorLabels(d.independentVerification, true);
            var records := DescriptorRecords(h, d, DESCRIPTOR_PURPOSE, true);
            var n := if d.independentVerification then 29 else 28;
            && |labels| == |records| == n + 3
            && labels[n] == "expected_agent_policy_hash" && records[n].value == d.expectedAgentPolicyHash
            && labels[n + 1] == "expected_cc_init_data_hash" && records[n + 1].value == d.expectedCcInitDataHash
            && labels[n + 2] == "expected_kbs_policy_hash" && records[n + 2].value == d.expectedKbsPolicyHash
  {
  }

  /** Read back from the canonical bytes, full and core, every literal label carries its own field,
      the labels stand in the order of `DescriptorLabels`, and there are no others. */
  lemma DescriptorReadBack(h: Digest, d: DeploymentDescriptor, full: bool)
    requires DescriptorFits(h, d)
    ensures var b := if full then DescriptorBytes(h, d) else CoreBytes(h, d);
            var labels := DescriptorLabels(d.independentVerification, full);
            && Decode(b).Some? && |Decode(b).value| == |labels|
            && (forall i :: 0 <= i < |labels| ==> Decode(b).value[i].tag == Ascii(labels[i]))
            && At(b, "schema_version") == Some(d.schemaVersion)
            && At(b, "org_id") == Some(d.orgId)
            && At(b, "org_slug") == Some(d.orgSlug)
            && At(b, "app_id") == Some(d.appId)
            && At(b, "app_name") == Some(d.appName)
            && At(b, "deploy_id") == Some(d.deployId)
            && At(b, "created_at") == Some(d.createdAt)
            && At(b, "nonce") == Some(d.nonce)
            && At(b, "app_domain") == Some(d.appDomain)
            && At(b, "tee_domain") == Some(d.teeDomain)
            && At(b, "custom_domains") == Some(h(Encode(StringListRecords(d.customDomains))))
            && At(b, "namespace") == Some(d.namespace)
            && At(b, "service_account") == Some(d.serviceAccount)
            && At(b, "identity_hash") == Some(d.identityHash)
            && At(b, "image_ref") == Some(d.imageRef)
            && At(b, "image_digest") == Some(d.imageDigest)
            && At(b, "signer_identity") == Some(h(Encode(SignerRecords(d.signerIdentity))))
            && At(b, "oci_runtime_spec") == Some(h(Encode(OciRecords(h, d.ociRuntimeSpec))))
            && At(b, "sidecars") == Some(h(Encode(SidecarRecords(d.sidecars))))
            && At(b, "api_signing_pubkey") == Some(d.apiSigningPubkey)
            && (d.expectedFirmwareMeasurement.Legacy? ==>
                  At(b, "expected_firmware_measurement") == Some(d.expectedFirmwareMeasurement.legacy))
            && (d.expectedFirmwareMeasurement.Full? ==>
                  At(b, "expected_firmware_measurement") == Some(d.expectedFirmwareMeasurement.full))
            && At(b, "expected_runtime_class") == Some(d.expectedRuntimeClass)
            && At(b, "kbs_resource_path") == Some(d.kbsResourcePath)
            && At(b, "unlock_mode") == Some(d.unlockMode)
            && At(b, "policy_template_id") == Some(d.policyTemplateId)
            && At(b, "policy_template_sha256") == Some(d.policyTemplateSha256)
            && At(b, "platform_release_version") == Some(d.platformReleaseVersion)
            && At(b, "purpose") == Some(Ascii(if full then "enclava-deployment-descriptor-v1"
                                              else "enclava-deployment-descriptor-core-v1"))
            && (d.independentVerification ==> At(b, "independent_verification") == Some(Ascii("true")))
            && (full ==>
                  && At(b, "expected_agent_policy_hash") == Some(d.expectedAgentPolicyHash)
                  && At(b, "expected_cc_init_data_hash") == Some(d.expectedCcInitDataHash)
                  && At(b, "expected_kbs_policy_hash") == Some(d.expectedKbsPolicyHash))
  {
    var b := if full then DescriptorBytes(h, d) else CoreBytes(h, d);
    DescriptorReads(h, d, full);
    FieldsAreFound(h, d, full);
    OrgValues(h, d, b);
    AppValues(h, d, b);
    PlaceValues(h, d, b);
    ImageValues(h, d, b);
    PolicyValues(h, d, b);
    PurposeValue(h, d, full);
    if d.independentVerification {
      FlagValue(h, d, full);
    }
    if full {
      AnchorValues(h, d);
    }
  }
}
