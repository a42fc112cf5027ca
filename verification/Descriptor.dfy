/** Deployment descriptors and their canonical bytes (signing-service/src/descriptor.rs).
    Text fields are the UTF-8 bytes of the source's strings; `createdAt` is RFC 3339 text. */
module Descriptor {
  import opened Bytes
  import opened CanonicalEncoding
  import opened StableSort
  import TextCodecs

  datatype SignerIdentity = SignerIdentity(subject: bytes, issuer: bytes)

  datatype EnvVar = EnvVar(name: bytes, value: bytes)

  datatype Port = Port(containerPort: u32, protocol: bytes)

  datatype Mount = Mount(source: bytes, destination: bytes, mountType: bytes, options: seq<bytes>)

  datatype Capabilities = Capabilities(add: seq<bytes>, drop: seq<bytes>)

  datatype SecurityContext = SecurityContext(
    runAsUser: u32, runAsGroup: u32,
    readOnlyRootFs: bool, allowPrivilegeEscalation: bool, privileged: bool)

  datatype Resources = Resources(requests: seq<EnvVar>, limits: seq<EnvVar>)

  datatype OciRuntimeSpec = OciRuntimeSpec(
    command: seq<bytes>, args: seq<bytes>, env: seq<EnvVar>, ports: seq<Port>,
    mounts: seq<Mount>, capabilities: Capabilities, securityContext: SecurityContext,
    resources: Resources)

  datatype Sidecars = Sidecars(attestationProxyDigest: bytes, caddyDigest: bytes)

  datatype FirmwareMeasurement = Legacy(legacy: bytes32) | Full(full: bytes48) {
    function AsBytes(): bytes {
      match this
      case Legacy(b) => b
      case Full(b) => b
    }
  }

  datatype DeploymentDescriptor = DeploymentDescriptor(
    schemaVersion: bytes, orgId: bytes16, orgSlug: bytes, appId: bytes16, appName: bytes,
    deployId: bytes16, createdAt: bytes, nonce: bytes32,
    appDomain: bytes, teeDomain: bytes, customDomains: seq<bytes>,
    namespace: bytes, serviceAccount: bytes, identityHash: bytes32,
    imageRef: bytes, imageDigest: bytes, signerIdentity: SignerIdentity,
    ociRuntimeSpec: OciRuntimeSpec, sidecars: Sidecars, apiSigningPubkey: bytes,
    independentVerification: bool, expectedFirmwareMeasurement: FirmwareMeasurement,
    expectedRuntimeClass: bytes, kbsResourcePath: bytes, unlockMode: bytes,
    policyTemplateId: bytes, policyTemplateSha256: bytes32, platformReleaseVersion: bytes,
    expectedAgentPolicyHash: bytes32, expectedCcInitDataHash: bytes32,
    expectedKbsPolicyHash: bytes32)

  // ------------------------------------------------------------- record lists

  function SignerRecords(s: SignerIdentity): seq<Record> {
    [Record(Ascii("subject"), s.subject), Record(Ascii("issuer"), s.issuer)]
  }

  function SidecarRecords(s: Sidecars): seq<Record> {
    [Record(Ascii("attestation_proxy"), s.attestationProxyDigest),
     Record(Ascii("caddy"), s.caddyDigest)]
  }

  /** The label of list position `i`: a letter and the decimal index. */
  function IndexTag(letter: string, i: nat): bytes {
    Ascii(letter) + TextCodecs.Decimal(i)
  }

  function StringListRecords(items: seq<bytes>): seq<Record> {
    seq(|items|, i requires 0 <= i < |items| => Record(IndexTag("i", i), items[i]))
  }

  function EnvName(e: EnvVar): bytes {
    e.name
  }

  /** Environment entries become records labelled by name, stably sorted by name. */
  function EnvRecords(env: seq<EnvVar>): seq<Record> {
    var sorted := Sort(env, EnvName);
    seq(|sorted|, i requires 0 <= i < |sorted| => Record(sorted[i].name, sorted[i].value))
  }

  function PortRecords(ports: seq<Port>): seq<Record> {
    seq(|ports|, i requires 0 <= i < |ports| =>
      Record(IndexTag("p", i), BigEndian(ports[i].containerPort, 4) + ports[i].protocol))
  }

  function MountRecords(h: Digest, m: Mount): seq<Record> {
    [Record(Ascii("source"), m.source),
     Record(Ascii("destination"), m.destination),
     Record(Ascii("type"), m.mountType),
     Record(Ascii("options"), h(Encode(StringListRecords(m.options))))]
  }

  function MountListRecords(h: Digest, mounts: seq<Mount>): seq<Record> {
    seq(|mounts|, i requires 0 <= i < |mounts| =>
      Record(IndexTag("m", i), h(Encode(MountRecords(h, mounts[i])))))
  }

  function Flag(b: bool): byte {
    if b then 1 else 0
  }

  function SecurityRecords(s: SecurityContext): seq<Record> {
    [Record(Ascii("run_as_user"), BigEndian(s.runAsUser, 4)),
     Record(Ascii("run_as_group"), BigEndian(s.runAsGroup, 4)),
     Record(Ascii("flags"),
            [Flag(s.readOnlyRootFs), Flag(s.allowPrivilegeEscalation), Flag(s.privileged)])]
  }

  function ResourceRecords(h: Digest, r: Resources): seq<Record> {
    [Record(Ascii("requests"), h(Encode(EnvRecords(r.requests)))),
     Record(Ascii("limits"), h(Encode(EnvRecords(r.limits))))]
  }

  function OciRecords(h: Digest, o: OciRuntimeSpec): seq<Record> {
    [Record(Ascii("command"), h(Encode(StringListRecords(o.command)))),
     Record(Ascii("args"), h(Encode(StringListRecords(o.args)))),
     Record(Ascii("env"), h(Encode(EnvRecords(o.env)))),
     Record(Ascii("ports"), h(Encode(PortRecords(o.ports)))),
     Record(Ascii("mounts"), h(Encode(MountListRecords(h, o.mounts)))),
     Record(Ascii("capabilities_add"), h(Encode(StringListRecords(o.capabilities.add)))),
     Record(Ascii("capabilities_drop"), h(Encode(StringListRecords(o.capabilities.drop)))),
     Record(Ascii("security_context"), h(Encode(SecurityRecords(o.securityContext)))),
     Record(Ascii("resources"), h(Encode(ResourceRecords(h, o.resources))))]
  }

  /** The 27 records that follow the purpose in every descriptor encoding. */
  function FieldRecords(h: Digest, d: DeploymentDescriptor): (r: seq<Record>)
    ensures |r| == 27
  {
    [Record(Ascii("schema_version"), d.schemaVersion),
     Record(Ascii("org_id"), d.orgId),
     Record(Ascii("org_slug"), d.orgSlug),
     Record(Ascii("app_id"), d.appId),
     Record(Ascii("app_name"), d.appName),
     Record(Ascii("deploy_id"), d.deployId),
     Record(Ascii("created_at"), d.createdAt),
     Record(Ascii("nonce"), d.nonce),
     Record(Ascii("app_domain"), d.appDomain),
     Record(Ascii("tee_domain"), d.teeDomain),
     Record(Ascii("custom_domains"), h(Encode(StringListRecords(d.customDomains)))),
     Record(Ascii("namespace"), d.namespace),
     Record(Ascii("service_account"), d.serviceAccount),
     Record(Ascii("identity_hash"), d.identityHash),
     Record(Ascii("image_ref"), d.imageRef),
     Record(Ascii("image_digest"), d.imageDigest),
     Record(Ascii("signer_identity"), h(Encode(SignerRecords(d.signerIdentity)))),
     Record(Ascii("oci_runtime_spec"), h(Encode(OciRecords(h, d.ociRuntimeSpec)))),
     Record(Ascii("sidecars"), h(Encode(SidecarRecords(d.sidecars)))),
     Record(Ascii("api_signing_pubkey"), d.apiSigningPubkey),
     Record(Ascii("expected_firmware_measurement"), d.expectedFirmwareMeasurement.AsBytes()),
     Record(Ascii("expected_runtime_class"), d.expectedRuntimeClass),
     Record(Ascii("kbs_resource_path"), d.kbsResourcePath),
     Record(Ascii("unlock_mode"), d.unlockMode),
     Record(Ascii("policy_template_id"), d.policyTemplateId),
     Record(Ascii("policy_template_sha256"), d.policyTemplateSha256),
     Record(Ascii("platform_release_version"), d.platformReleaseVersion)]
  }

  function FlagRecords(d: DeploymentDescriptor): seq<Record> {
    if d.independentVerification then [Record(Ascii("independent_verification"), Ascii("true"))]
    else []
  }

  function AnchorRecords(d: DeploymentDescriptor): seq<Record> {
    [Record(Ascii("expected_agent_policy_hash"), d.expectedAgentPolicyHash),
     Record(Ascii("expected_cc_init_data_hash"), d.expectedCcInitDataHash),
     Record(Ascii("expected_kbs_policy_hash"), d.expectedKbsPolicyHash)]
  }

  function DescriptorRecords(h: Digest, d: DeploymentDescriptor, purpose: bytes, anchors: bool)
    : seq<Record>
  {
    [Record(Ascii("purpose"), purpose)] + FieldRecords(h, d) + FlagRecords(d)
    + if anchors then AnchorRecords(d) else []
  }

  const DESCRIPTOR_PURPOSE: bytes := Ascii("enclava-deployment-descriptor-v1")
  const CORE_PURPOSE: bytes := Ascii("enclava-deployment-descriptor-core-v1")

  function DescriptorBytes(h: Digest, d: DeploymentDescriptor): bytes {
    Encode(DescriptorRecords(h, d, DESCRIPTOR_PURPOSE, true))
  }

  function CoreBytes(h: Digest, d: DeploymentDescriptor): bytes {
    Encode(DescriptorRecords(h, d, CORE_PURPOSE, false))
  }

  // ------------------------------------------------- length bounds, preimages

  predicate MountFits(h: Digest, m: Mount) {
    AllFit(StringListRecords(m.options)) && AllFit(MountRecords(h, m))
  }

  predicate OciFits(h: Digest, o: OciRuntimeSpec) {
    && AllFit(StringListRecords(o.command)) && AllFit(StringListRecords(o.args))
    && AllFit(EnvRecords(o.env)) && AllFit(PortRecords(o.ports))
    && (forall m :: m in o.mounts ==> MountFits(h, m)) && AllFit(MountListRecords(h, o.mounts))
    && AllFit(StringListRecords(o.capabilities.add))
    && AllFit(StringListRecords(o.capabilities.drop))
    && AllFit(EnvRecords(o.resources.requests)) && AllFit(EnvRecords(o.resources.limits))
  }

  /** Every label and value is within the encoder's widths, so that neither
      encoding of the descriptor panics. */
  predicate DescriptorFits(h: Digest, d: DeploymentDescriptor) {
    && AllFit(StringListRecords(d.customDomains)) && AllFit(SignerRecords(d.signerIdentity))
    && AllFit(SidecarRecords(d.sidecars)) && OciFits(h, d.ociRuntimeSpec)
    && AllFit(DescriptorRecords(h, d, DESCRIPTOR_PURPOSE, true))
  }

  function MountPreimages(h: Digest, mounts: seq<Mount>): set<bytes> {
    (set m | m in mounts :: Encode(StringListRecords(m.options)))
    + (set m | m in mounts :: Encode(MountRecords(h, m)))
    + {Encode(MountListRecords(h, mounts))}
  }

  function OciPreimages(h: Digest, o: OciRuntimeSpec): set<bytes> {
    {Encode(StringListRecords(o.command)), Encode(StringListRecords(o.args)),
     Encode(EnvRecords(o.env)), Encode(PortRecords(o.ports)),
     Encode(StringListRecords(o.capabilities.add)), Encode(StringListRecords(o.capabilities.drop)),
     Encode(SecurityRecords(o.securityContext)),
     Encode(EnvRecords(o.resources.requests)), Encode(EnvRecords(o.resources.limits)),
     Encode(ResourceRecords(h, o.resources)), Encode(OciRecords(h, o))}
    + MountPreimages(h, o.mounts)
  }

  /** The strings that are digested while a descriptor is encoded: finitely many. */
  function DescriptorPreimages(h: Digest, d: DeploymentDescriptor): set<bytes> {
    {Encode(StringListRecords(d.customDomains)), Encode(SignerRecords(d.signerIdentity)),
     Encode(SidecarRecords(d.sidecars))}
    + OciPreimages(h, d.ociRuntimeSpec)
  }

  /** Two different members of a given finite set of strings share a digest. */
  ghost predicate Collision(h: Digest, strings: set<bytes>) {
    exists x, y :: x in strings && y in strings && x != y && h(x) == h(y)
  }

  // ------------------------------------------------------------- equivalence

  ghost predicate SameEnv(a: seq<EnvVar>, b: seq<EnvVar>) {
    SameGroups(a, b, EnvName)
  }

  /** A specification with its three name-value lists emptied. */
  function WithoutEnv(o: OciRuntimeSpec): OciRuntimeSpec {
    o.(env := [], resources := Resources([], []))
  }

  ghost predicate OciEquivalent(a: OciRuntimeSpec, b: OciRuntimeSpec) {
    && WithoutEnv(a) == WithoutEnv(b)
    && SameEnv(a.env, b.env)
    && SameEnv(a.resources.requests, b.resources.requests)
    && SameEnv(a.resources.limits, b.resources.limits)
  }

  /** Agreement on every field, where env, requests and limits are compared as one
      sequence of values for each name. */
  ghost predicate Equivalent(a: DeploymentDescriptor, b: DeploymentDescriptor) {
    && a == b.(ociRuntimeSpec := a.ociRuntimeSpec)
    && OciEquivalent(a.ociRuntimeSpec, b.ociRuntimeSpec)
  }

  /** Equivalence that ignores the three chain anchors. */
  ghost predicate CoreEquivalent(a: DeploymentDescriptor, b: DeploymentDescriptor) {
    Equivalent(a, b.(expectedAgentPolicyHash := a.expectedAgentPolicyHash,
                     expectedCcInitDataHash := a.expectedCcInitDataHash,
                     expectedKbsPolicyHash := a.expectedKbsPolicyHash))
  }

  // ------------------------------------------------------ equal digests, parts

  /** Equal digests of two encoded lists mean equal lists, unless they collide. */
  lemma HashBinding(h: Digest, s: set<bytes>, a: seq<Record>, b: seq<Record>)
    requires AllFit(a) && AllFit(b) && Encode(a) in s && Encode(b) in s && !Collision(h, s)
    requires h(Encode(a)) == h(Encode(b))
    ensures a == b
  {
    EncodeInjective(a, b);
  }

  lemma StringListBinding(h: Digest, s: set<bytes>, a: seq<bytes>, b: seq<bytes>)
    requires AllFit(StringListRecords(a)) && AllFit(StringListRecords(b)) && !Collision(h, s)
    requires Encode(StringListRecords(a)) in s && Encode(StringListRecords(b)) in s
    requires h(Encode(StringListRecords(a))) == h(Encode(StringListRecords(b)))
    ensures a == b
  {
    HashBinding(h, s, StringListRecords(a), StringListRecords(b));
    forall i | 0 <= i < |a| ensures a[i] == b[i] {
      assert StringListRecords(a)[i].value == StringListRecords(b)[i].value;
    }
  }

  /** Name-value lists have the same records exactly when they have, for each name,
      the same values in the same order. */
  lemma EnvRecordsCharacterised(a: seq<EnvVar>, b: seq<EnvVar>)
    ensures EnvRecords(a) == EnvRecords(b) <==> SameEnv(a, b)
  {
    SortCharacterised(a, b, EnvName);
    var x, y := Sort(a, EnvName), Sort(b, EnvName);
    if EnvRecords(a) == EnvRecords(b) {
      assert |x| == |EnvRecords(a)| == |EnvRecords(b)| == |y|;
      forall i | 0 <= i < |x| ensures x[i] == y[i] {
        assert EnvRecords(a)[i] == EnvRecords(b)[i];
      }
      assert x == y;
    }
  }

  lemma EnvBinding(h: Digest, s: set<bytes>, a: seq<EnvVar>, b: seq<EnvVar>)
    requires AllFit(EnvRecords(a)) && AllFit(EnvRecords(b)) && !Collision(h, s)
    requires Encode(EnvRecords(a)) in s && Encode(EnvRecords(b)) in s
    requires h(Encode(EnvRecords(a))) == h(Encode(EnvRecords(b)))
    ensures SameEnv(a, b)
  {
    HashBinding(h, s, EnvRecords(a), EnvRecords(b));
    EnvRecordsCharacterised(a, b);
  }

  lemma U32Injective(m: u32, n: u32, x: bytes, y: bytes)
    requires BigEndian(m, 4) + x == BigEndian(n, 4) + y
    ensures m == n && x == y
  {
    PowValues();
    var l, r := BigEndian(m, 4) + x, BigEndian(n, 4) + y;
    assert l[..4] == BigEndian(m, 4) && r[..4] == BigEndian(n, 4) && l[4..] == x && r[4..] == y;
    BigEndianInjective(m, n, 4);
  }

  lemma PortsBinding(h: Digest, s: set<bytes>, a: seq<Port>, b: seq<Port>)
    requires AllFit(PortRecords(a)) && AllFit(PortRecords(b)) && !Collision(h, s)
    requires Encode(PortRecords(a)) in s && Encode(PortRecords(b)) in s
    requires h(Encode(PortRecords(a))) == h(Encode(PortRecords(b)))
    ensures a == b
  {
    HashBinding(h, s, PortRecords(a), PortRecords(b));
    assert |a| == |PortRecords(a)| == |PortRecords(b)| == |b|;
    forall i | 0 <= i < |a| ensures a[i] == b[i] {
      assert PortRecords(a)[i].value == PortRecords(b)[i].value;
      U32Injective(a[i].containerPort, b[i].containerPort, a[i].protocol, b[i].protocol);
    }
  }

  lemma MountBinding(h: Digest, s: set<bytes>, a: Mount, b: Mount)
    requires MountFits(h, a) && MountFits(h, b) && !Collision(h, s)
    requires Encode(MountRecords(h, a)) in s && Encode(MountRecords(h, b)) in s
    requires Encode(StringListRecords(a.options)) in s && Encode(StringListRecords(b.options)) in s
    requires h(Encode(MountRecords(h, a))) == h(Encode(MountRecords(h, b)))
    ensures a == b
  {
    var x, y := MountRecords(h, a), MountRecords(h, b);
    HashBinding(h, s, x, y);
    assert x[0] == y[0] && x[1] == y[1] && x[2] == y[2] && x[3] == y[3];
    StringListBinding(h, s, a.options, b.options);
  }

  lemma MountsBinding(h: Digest, s: set<bytes>, a: seq<Mount>, b: seq<Mount>)
    requires AllFit(MountListRecords(h, a)) && AllFit(MountListRecords(h, b)) && !Collision(h, s)
    requires forall m :: m in a || m in b ==> MountFits(h, m)
    requires MountPreimages(h, a) <= s && MountPreimages(h, b) <= s
    requires h(Encode(MountListRecords(h, a))) == h(Encode(MountListRecords(h, b)))
    ensures a == b
  {
    HashBinding(h, s, MountListRecords(h, a), MountListRecords(h, b));
    assert |a| == |MountListRecords(h, a)| == |MountListRecords(h, b)| == |b|;
    forall i | 0 <= i < |a| ensures a[i] == b[i] {
      assert MountListRecords(h, a)[i].value == MountListRecords(h, b)[i].value;
      assert a[i] in a && b[i] in b;
      MountBinding(h, s, a[i], b[i]);
    }
  }

  lemma SecurityFits(c: SecurityContext)
    ensures AllFit(SecurityRecords(c))
  {
  }

  lemma SecurityBinding(h: Digest, s: set<bytes>, a: SecurityContext, b: SecurityContext)
    requires !Collision(h, s)
    requires Encode(SecurityRecords(a)) in s && Encode(SecurityRecords(b)) in s
    requires h(Encode(SecurityRecords(a))) == h(Encode(SecurityRecords(b)))
    ensures a == b
  {
    var x, y := SecurityRecords(a), SecurityRecords(b);
    SecurityFits(a);
    SecurityFits(b);
    HashBinding(h, s, x, y);
    assert x[0].value + [] == y[0].value + [] && x[1].value + [] == y[1].value + [];
    U32Injective(a.runAsUser, b.runAsUser, [], []);
    U32Injective(a.runAsGroup, b.runAsGroup, [], []);
    assert x[2].value == y[2].value;
    assert x[2].value[0] == y[2].value[0];
    assert x[2].value[1] == y[2].value[1];
    assert x[2].value[2] == y[2].value[2];
  }

  lemma ResourcesBinding(h: Digest, s: set<bytes>, a: Resources, b: Resources)
    requires !Collision(h, s)
    requires AllFit(EnvRecords(a.requests)) && AllFit(EnvRecords(b.requests))
    requires AllFit(EnvRecords(a.limits)) && AllFit(EnvRecords(b.limits))
    requires Encode(EnvRecords(a.requests)) in s && Encode(EnvRecords(b.requests)) in s
    requires Encode(EnvRecords(a.limits)) in s && Encode(EnvRecords(b.limits)) in s
    requires Encode(ResourceRecords(h, a)) in s && Encode(ResourceRecords(h, b)) in s
    requires h(Encode(ResourceRecords(h, a))) == h(Encode(ResourceRecords(h, b)))
    ensures SameEnv(a.requests, b.requests) && SameEnv(a.limits, b.limits)
  {
    var x, y := ResourceRecords(h, a), ResourceRecords(h, b);
    HashBinding(h, s, x, y);
    assert x[0].value == y[0].value && x[1].value == y[1].value;
    EnvBinding(h, s, a.requests, b.requests);
    EnvBinding(h, s, a.limits, b.limits);
  }

  ghost predicate OciListsIn(h: Digest, s: set<bytes>, o: OciRuntimeSpec) {
    && Encode(StringListRecords(o.command)) in s && Encode(StringListRecords(o.args)) in s
    && Encode(EnvRecords(o.env)) in s && Encode(PortRecords(o.ports)) in s
    && MountPreimages(h, o.mounts) <= s
    && Encode(StringListRecords(o.capabilities.add)) in s
    && Encode(StringListRecords(o.capabilities.drop)) in s
    && Encode(SecurityRecords(o.securityContext)) in s
    && Encode(EnvRecords(o.resources.requests)) in s
    && Encode(EnvRecords(o.resources.limits)) in s
    && Encode(ResourceRecords(h, o.resources)) in s && Encode(OciRecords(h, o)) in s
  }

  lemma OciListsAreIn(h: Digest, s: set<bytes>, o: OciRuntimeSpec)
    requires OciPreimages(h, o) <= s
    ensures OciListsIn(h, s, o)
  {
  }

  ghost predicate OciDigestsAgree(h: Digest, a: OciRuntimeSpec, b: OciRuntimeSpec) {
    && h(Encode(StringListRecords(a.command))) == h(Encode(StringListRecords(b.command)))
    && h(Encode(StringListRecords(a.args))) == h(Encode(StringListRecords(b.args)))
    && h(Encode(EnvRecords(a.env))) == h(Encode(EnvRecords(b.env)))
    && h(Encode(PortRecords(a.ports))) == h(Encode(PortRecords(b.ports)))
    && h(Encode(MountListRecords(h, a.mounts))) == h(Encode(MountListRecords(h, b.mounts)))
    && h(Encode(StringListRecords(a.capabilities.add)))
       == h(Encode(StringListRecords(b.capabilities.add)))
    && h(Encode(StringListRecords(a.capabilities.drop)))
       == h(Encode(StringListRecords(b.capabilities.drop)))
    && h(Encode(SecurityRecords(a.securityContext)))
       == h(Encode(SecurityRecords(b.securityContext)))
    && h(Encode(ResourceRecords(h, a.resources))) == h(Encode(ResourceRecords(h, b.resources)))
  }

  lemma OciRecordsFit(h: Digest, o: OciRuntimeSpec)
    ensures AllFit(OciRecords(h, o))
  {
  }

  lemma OciRecordsDetermineDigests(h: Digest, a: OciRuntimeSpec, b: OciRuntimeSpec)
    requires OciRecords(h, a) == OciRecords(h, b)
    ensures OciDigestsAgree(h, a, b)
  {
    var x, y := OciRecords(h, a), OciRecords(h, b);
    assert x[0].value == y[0].value && x[1].value == y[1].value && x[2].value == y[2].value;
    assert x[3].value == y[3].value && x[4].value == y[4].value && x[5].value == y[5].value;
    assert x[6].value == y[6].value && x[7].value == y[7].value && x[8].value == y[8].value;
  }

  lemma OciDigestsBinding(h: Digest, s: set<bytes>, a: OciRuntimeSpec, b: OciRuntimeSpec)
    requires OciFits(h, a) && OciFits(h, b) && !Collision(h, s)
    requires Encode(OciRecords(h, a)) in s && Encode(OciRecords(h, b)) in s
    requires h(Encode(OciRecords(h, a))) == h(Encode(OciRecords(h, b)))
    ensures OciDigestsAgree(h, a, b)
  {
    OciRecordsFit(h, a);
    OciRecordsFit(h, b);
    HashBinding(h, s, OciRecords(h, a), OciRecords(h, b));
    OciRecordsDetermineDigests(h, a, b);
  }

  lemma OciBinding(h: Digest, s: set<bytes>, a: OciRuntimeSpec, b: OciRuntimeSpec)
    requires OciFits(h, a) && OciFits(h, b) && !Collision(h, s)
    requires OciListsIn(h, s, a) && OciListsIn(h, s, b)
    requires h(Encode(OciRecords(h, a))) == h(Encode(OciRecords(h, b)))
    ensures OciEquivalent(a, b)
  {
    OciDigestsBinding(h, s, a, b);
    OciListsBinding(h, s, a, b);
    OciMountsBinding(h, s, a, b);
    OciCapabilitiesBinding(h, s, a, b);
    OciResourcesBinding(h, s, a, b);
  }

  lemma OciListsBinding(h: Digest, s: set<bytes>, a: OciRuntimeSpec, b: OciRuntimeSpec)
    requires OciFits(h, a) && OciFits(h, b) && !Collision(h, s)
    requires OciListsIn(h, s, a) && OciListsIn(h, s, b) && OciDigestsAgree(h, a, b)
    ensures a.command == b.command && a.args == b.args && SameEnv(a.env, b.env) && a.ports == b.ports
  {
    StringListBinding(h, s, a.command, b.command);
    StringListBinding(h, s, a.args, b.args);
    EnvBinding(h, s, a.env, b.env);
    PortsBinding(h, s, a.ports, b.ports);
  }

  lemma OciMountsBinding(h: Digest, s: set<bytes>, a: OciRuntimeSpec, b: OciRuntimeSpec)
    requires OciFits(h, a) && OciFits(h, b) && !Collision(h, s)
    requires OciListsIn(h, s, a) && OciListsIn(h, s, b) && OciDigestsAgree(h, a, b)
    ensures a.mounts == b.mounts
  {
    MountsBinding(h, s, a.mounts, b.mounts);
  }

  lemma OciCapabilitiesBinding(h: Digest, s: set<bytes>, a: OciRuntimeSpec, b: OciRuntimeSpec)
    requires OciFits(h, a) && OciFits(h, b) && !Collision(h, s)
    requires OciListsIn(h, s, a) && OciListsIn(h, s, b) && OciDigestsAgree(h, a, b)
    ensures a.capabilities == b.capabilities && a.securityContext == b.securityContext
  {
    StringListBinding(h, s, a.capabilities.add, b.capabilities.add);
    StringListBinding(h, s, a.capabilities.drop, b.capabilities.drop);
    SecurityBinding(h, s, a.securityContext, b.securityContext);
  }

  lemma OciResourcesBinding(h: Digest, s: set<bytes>, a: OciRuntimeSpec, b: OciRuntimeSpec)
    requires OciFits(h, a) && OciFits(h, b) && !Collision(h, s)
    requires OciListsIn(h, s, a) && OciListsIn(h, s, b) && OciDigestsAgree(h, a, b)
    ensures SameEnv(a.resources.requests, b.resources.requests)
    ensures SameEnv(a.resources.limits, b.resources.limits)
  {
    ResourcesBinding(h, s, a.resources, b.resources);
  }

  lemma OciSameRecords(h: Digest, a: OciRuntimeSpec, b: OciRuntimeSpec)
    requires OciEquivalent(a, b)
    ensures OciRecords(h, a) == OciRecords(h, b)
  {
    EnvRecordsCharacterised(a.env, b.env);
    EnvRecordsCharacterised(a.resources.requests, b.resources.requests);
    EnvRecordsCharacterised(a.resources.limits, b.resources.limits);
    var x, y := WithoutEnv(a), WithoutEnv(b);
    assert x.command == a.command && x.args == a.args && x.ports == a.ports && x.mounts == a.mounts;
    assert y.command == b.command && y.args == b.args && y.ports == b.ports && y.mounts == b.mounts;
    assert x.capabilities == a.capabilities && x.securityContext == a.securityContext;
    assert y.capabilities == b.capabilities && y.securityContext == b.securityContext;
  }

  // ------------------------------------------------------------ main results

  lemma SignerBinding(h: Digest, s: set<bytes>, a: SignerIdentity, b: SignerIdentity)
    requires AllFit(SignerRecords(a)) && AllFit(SignerRecords(b)) && !Collision(h, s)
    requires Encode(SignerRecords(a)) in s && Encode(SignerRecords(b)) in s
    requires h(Encode(SignerRecords(a))) == h(Encode(SignerRecords(b)))
    ensures a == b
  {
    var x, y := SignerRecords(a), SignerRecords(b);
    HashBinding(h, s, x, y);
    assert x[0].value == y[0].value && x[1].value == y[1].value;
  }

  lemma SidecarBinding(h: Digest, s: set<bytes>, a: Sidecars, b: Sidecars)
    requires AllFit(SidecarRecords(a)) && AllFit(SidecarRecords(b)) && !Collision(h, s)
    requires Encode(SidecarRecords(a)) in s && Encode(SidecarRecords(b)) in s
    requires h(Encode(SidecarRecords(a))) == h(Encode(SidecarRecords(b)))
    ensures a == b
  {
    var x, y := SidecarRecords(a), SidecarRecords(b);
    HashBinding(h, s, x, y);
    assert x[0].value == y[0].value && x[1].value == y[1].value;
  }

  /** Agreement on every field that a field record holds directly or digests. */
  ghost predicate FieldsAgree(h: Digest, a: DeploymentDescriptor, b: DeploymentDescriptor) {
    && a.schemaVersion == b.schemaVersion && a.orgId == b.orgId && a.orgSlug == b.orgSlug
    && a.appId == b.appId && a.appName == b.appName && a.deployId == b.deployId
    && a.createdAt == b.createdAt && a.nonce == b.nonce
    && a.appDomain == b.appDomain && a.teeDomain == b.teeDomain
    && h(Encode(StringListRecords(a.customDomains))) == h(Encode(StringListRecords(b.customDomains)))
    && a.namespace == b.namespace && a.serviceAccount == b.serviceAccount
    && a.identityHash == b.identityHash && a.imageRef == b.imageRef
    && a.imageDigest == b.imageDigest
    && h(Encode(SignerRecords(a.signerIdentity))) == h(Encode(SignerRecords(b.signerIdentity)))
    && h(Encode(OciRecords(h, a.ociRuntimeSpec))) == h(Encode(OciRecords(h, b.ociRuntimeSpec)))
    && h(Encode(SidecarRecords(a.sidecars))) == h(Encode(SidecarRecords(b.sidecars)))
    && a.apiSigningPubkey == b.apiSigningPubkey
    && a.expectedFirmwareMeasurement == b.expectedFirmwareMeasurement
    && a.expectedRuntimeClass == b.expectedRuntimeClass
    && a.kbsResourcePath == b.kbsResourcePath && a.unlockMode == b.unlockMode
    && a.policyTemplateId == b.policyTemplateId
    && a.policyTemplateSha256 == b.policyTemplateSha256
    && a.platformReleaseVersion == b.platformReleaseVersion
  }

  /** A 32-byte and a 48-byte measurement never have the same bytes. */
  lemma MeasurementInjective(a: FirmwareMeasurement, b: FirmwareMeasurement)
    requires a.AsBytes() == b.AsBytes()
    ensures a == b
  {
    assert |a.AsBytes()| == |b.AsBytes()|;
  }

  lemma FieldRecordsDetermineFields(h: Digest, a: DeploymentDescriptor, b: DeploymentDescriptor)
    requires FieldRecords(h, a) == FieldRecords(h, b)
    ensures FieldsAgree(h, a, b)
  {
    var x, y := FieldRecords(h, a), FieldRecords(h, b);
    assert x[0].value == y[0].value && x[1].value == y[1].value && x[2].value == y[2].value;
    assert x[3].value == y[3].value && x[4].value == y[4].value && x[5].value == y[5].value;
    assert x[6].value == y[6].value && x[7].value == y[7].value && x[8].value == y[8].value;
    assert x[9].value == y[9].value && x[10].value == y[10].value && x[11].value == y[11].value;
    assert x[12].value == y[12].value && x[13].value == y[13].value && x[14].value == y[14].value;
    assert x[15].value == y[15].value && x[16].value == y[16].value && x[17].value == y[17].value;
    assert x[18].value == y[18].value && x[19].value == y[19].value && x[20].value == y[20].value;
    assert x[21].value == y[21].value && x[22].value == y[22].value && x[23].value == y[23].value;
    assert x[24].value == y[24].value && x[25].value == y[25].value && x[26].value == y[26].value;
    MeasurementInjective(a.expectedFirmwareMeasurement, b.expectedFirmwareMeasurement);
  }

  /** Equal record lists have equal field records, equal flags and equal anchors: the
      optional record is recognised by the length. */
  lemma RecordListsSplit(h: Digest, a: DeploymentDescriptor, b: DeploymentDescriptor,
                         purpose: bytes, anchors: bool)
    requires DescriptorRecords(h, a, purpose, anchors) == DescriptorRecords(h, b, purpose, anchors)
    ensures FieldRecords(h, a) == FieldRecords(h, b)
    ensures a.independentVerification == b.independentVerification
    ensures anchors ==> AnchorRecords(a) == AnchorRecords(b)
  {
    var first := Record(Ascii("purpose"), purpose);
    Sections(first, FieldRecords(h, a), FlagRecords(a), if anchors then AnchorRecords(a) else []);
    Sections(first, FieldRecords(h, b), FlagRecords(b), if anchors then AnchorRecords(b) else []);
  }

  lemma Sections(first: Record, fields: seq<Record>, flag: seq<Record>, anchors: seq<Record>)
    ensures var x := [first] + fields + flag + anchors;
            x[1..1 + |fields|] == fields && x[|x| - |anchors|..] == anchors
            && |x| == 1 + |fields| + |flag| + |anchors|
  {
  }

  lemma PreimagesIn(h: Digest, s: set<bytes>, d: DeploymentDescriptor)
    requires DescriptorPreimages(h, d) <= s
    ensures Encode(StringListRecords(d.customDomains)) in s
    ensures Encode(SignerRecords(d.signerIdentity)) in s && Encode(SidecarRecords(d.sidecars)) in s
    ensures OciListsIn(h, s, d.ociRuntimeSpec)
  {
    OciListsAreIn(h, s, d.ociRuntimeSpec);
  }

  lemma FieldsBinding(h: Digest, s: set<bytes>, a: DeploymentDescriptor, b: DeploymentDescriptor)
    requires DescriptorFits(h, a) && DescriptorFits(h, b) && !Collision(h, s)
    requires DescriptorPreimages(h, a) <= s && DescriptorPreimages(h, b) <= s
    requires FieldsAgree(h, a, b)
    requires a.independentVerification == b.independentVerification
    ensures CoreEquivalent(a, b)
  {
    PreimagesIn(h, s, a);
    PreimagesIn(h, s, b);
    StringListBinding(h, s, a.customDomains, b.customDomains);
    SignerBinding(h, s, a.signerIdentity, b.signerIdentity);
    SidecarBinding(h, s, a.sidecars, b.sidecars);
    OciBinding(h, s, a.ociRuntimeSpec, b.ociRuntimeSpec);
  }

  lemma AnchorsDetermineFields(a: DeploymentDescriptor, b: DeploymentDescriptor)
    ensures AnchorRecords(a) == AnchorRecords(b) <==>
            && a.expectedAgentPolicyHash == b.expectedAgentPolicyHash
            && a.expectedCcInitDataHash == b.expectedCcInitDataHash
            && a.expectedKbsPolicyHash == b.expectedKbsPolicyHash
  {
    var x, y := AnchorRecords(a), AnchorRecords(b);
    if x == y {
      assert x[0].value == y[0].value && x[1].value == y[1].value && x[2].value == y[2].value;
    }
  }

  /** Core-equivalent descriptors have the same records apart from the anchors. */
  lemma CoreSameRecords(h: Digest, a: DeploymentDescriptor, b: DeploymentDescriptor)
    requires CoreEquivalent(a, b)
    ensures FieldRecords(h, a) == FieldRecords(h, b)
    ensures FlagRecords(a) == FlagRecords(b)
  {
    OciSameRecords(h, a.ociRuntimeSpec, b.ociRuntimeSpec);
  }

  lemma CoreRecordsFit(h: Digest, d: DeploymentDescriptor)
    requires DescriptorFits(h, d)
    ensures AllFit(DescriptorRecords(h, d, CORE_PURPOSE, false))
  {
    var full := DescriptorRecords(h, d, DESCRIPTOR_PURPOSE, true);
    assert forall r :: r in FieldRecords(h, d) || r in FlagRecords(d) ==> r in full;
  }

  /** The full canonical bytes identify a descriptor up to equivalence, unless two of
      the finitely many strings digested on the way collide. */
  lemma DescriptorBinding(h: Digest, a: DeploymentDescriptor, b: DeploymentDescriptor)
    requires DescriptorFits(h, a) && DescriptorFits(h, b)
    ensures Equivalent(a, b) ==> DescriptorBytes(h, a) == DescriptorBytes(h, b)
    ensures DescriptorBytes(h, a) == DescriptorBytes(h, b) ==>
              || Equivalent(a, b)
              || Collision(h, DescriptorPreimages(h, a) + DescriptorPreimages(h, b))
  {
    var s := DescriptorPreimages(h, a) + DescriptorPreimages(h, b);
    AnchorsDetermineFields(a, b);
    if Equivalent(a, b) {
      CoreSameRecords(h, a, b);
    }
    if DescriptorBytes(h, a) == DescriptorBytes(h, b) && !Collision(h, s) {
      EncodeInjective(DescriptorRecords(h, a, DESCRIPTOR_PURPOSE, true),
                      DescriptorRecords(h, b, DESCRIPTOR_PURPOSE, true));
      RecordListsSplit(h, a, b, DESCRIPTOR_PURPOSE, true);
      FieldRecordsDetermineFields(h, a, b);
      FieldsBinding(h, s, a, b);
    }
  }

  /** The core bytes identify exactly what the full bytes do, less the three anchors. */
  lemma CoreBinding(h: Digest, a: DeploymentDescriptor, b: DeploymentDescriptor)
    requires DescriptorFits(h, a) && DescriptorFits(h, b)
    ensures CoreEquivalent(a, b) ==> CoreBytes(h, a) == CoreBytes(h, b)
    ensures CoreBytes(h, a) == CoreBytes(h, b) ==>
              || CoreEquivalent(a, b)
              || Collision(h, DescriptorPreimages(h, a) + DescriptorPreimages(h, b))
  {
    var s := DescriptorPreimages(h, a) + DescriptorPreimages(h, b);
    if CoreEquivalent(a, b) {
      CoreSameRecords(h, a, b);
    }
    if CoreBytes(h, a) == CoreBytes(h, b) && !Collision(h, s) {
      CoreRecordsFit(h, a);
      CoreRecordsFit(h, b);
      EncodeInjective(DescriptorRecords(h, a, CORE_PURPOSE, false),
                      DescriptorRecords(h, b, CORE_PURPOSE, false));
      RecordListsSplit(h, a, b, CORE_PURPOSE, false);
      FieldRecordsDetermineFields(h, a, b);
      FieldsBinding(h, s, a, b);
    }
  }
}
