/** Which descriptors and keyrings the encoder takes without a panic, in terms of the lengths of
    their texts (signing-service/src/canonical.rs, descriptor.rs, keyring.rs). */
module LengthBounds {
  import opened Bytes
  import opened CanonicalEncoding
  import opened StableSort
  import opened Descriptor
  import opened Keyring
  import TextCodecs

  predicate Short(text: bytes) {
    |text| < 0x1_0000_0000
  }

  /** The labels of a numbered list, a letter and a decimal index, have the label's width. For
      lists this is no more than 10 to the power 65534 items (`DecimalDigits`). */
  predicate ShortIndexes(count: nat) {
    count == 0 || 1 + |TextCodecs.Decimal(count - 1)| < 0x1_0000
  }

  predicate ShortList(items: seq<bytes>) {
    ShortIndexes(|items|) && forall t :: t in items ==> Short(t)
  }

  /** Names become labels, so they have the label's width. */
  predicate ShortEntry(e: EnvVar) {
    |e.name| < 0x1_0000 && Short(e.value)
  }

  predicate ShortEntries(env: seq<EnvVar>) {
    forall e :: e in env ==> ShortEntry(e)
  }

  predicate ShortPorts(ports: seq<Port>) {
    ShortIndexes(|ports|) && forall p :: p in ports ==> |p.protocol| < 0x1_0000_0000 - 4
  }

  predicate ShortMount(m: Mount) {
    Short(m.source) && Short(m.destination) && Short(m.mountType) && ShortList(m.options)
  }

  predicate ShortMounts(mounts: seq<Mount>) {
    ShortIndexes(|mounts|) && forall m :: m in mounts ==> ShortMount(m)
  }

  predicate ShortOci(o: OciRuntimeSpec) {
    && ShortList(o.command) && ShortList(o.args) && ShortEntries(o.env) && ShortPorts(o.ports)
    && ShortMounts(o.mounts) && ShortList(o.capabilities.add) && ShortList(o.capabilities.drop)
    && ShortEntries(o.resources.requests) && ShortEntries(o.resources.limits)
  }

  predicate ShortTexts(d: DeploymentDescriptor) {
    && Short(d.schemaVersion) && Short(d.orgSlug) && Short(d.appName) && Short(d.createdAt)
    && Short(d.appDomain) && Short(d.teeDomain) && Short(d.namespace) && Short(d.serviceAccount)
    && Short(d.imageRef) && Short(d.imageDigest) && Short(d.apiSigningPubkey)
    && Short(d.expectedRuntimeClass) && Short(d.kbsResourcePath) && Short(d.unlockMode)
    && Short(d.policyTemplateId) && Short(d.platformReleaseVersion)
  }

  predicate ShortDescriptor(d: DeploymentDescriptor) {
    && ShortTexts(d) && ShortOci(d.ociRuntimeSpec) && ShortList(d.customDomains)
    && Short(d.signerIdentity.subject) && Short(d.signerIdentity.issuer)
    && Short(d.sidecars.attestationProxyDigest) && Short(d.sidecars.caddyDigest)
  }

  predicate ShortKeyring(k: OrgKeyring) {
    Short(k.updatedAt) && forall m :: m in k.members ==> Short(m.addedAt)
  }

  // -------------------------------------------------------------- numbered labels

  function Pow10(k: nat): (p: nat)
    ensures p > 0
  {
    if k == 0 then 1 else 10 * Pow10(k - 1)
  }

  /** An index has at most `k` digits exactly when it is below 10 to the power `k`. */
  lemma {:induction false} DecimalDigits(n: nat, k: nat)
    requires k > 0
    ensures |TextCodecs.Decimal(n)| <= k <==> n < Pow10(k)
  {
    if n >= 10 {
      if k == 1 {
        assert Pow10(1) == 10 * Pow10(0);
      } else {
        DecimalDigits(n / 10, k - 1);
      }
    } else {
      assert Pow10(k) == 10 * Pow10(k - 1);
    }
  }

  lemma {:induction false} DecimalGrows(i: nat, j: nat)
    requires i <= j
    ensures 0 < |TextCodecs.Decimal(i)| <= |TextCodecs.Decimal(j)|
  {
    if i >= 10 {
      DecimalGrows(i / 10, j / 10);
    } else if j >= 10 {
      DecimalGrows(0, j / 10);
    }
  }

  lemma IndexesFit(letter: string, count: nat)
    requires |letter| == 1
    ensures ShortIndexes(count) <==> forall i :: 0 <= i < count ==> |IndexTag(letter, i)| < 0x1_0000
  {
    if count > 0 {
      assert |IndexTag(letter, count - 1)| == 1 + |TextCodecs.Decimal(count - 1)|;
      forall i | 0 <= i < count ensures |IndexTag(letter, i)| <= |IndexTag(letter, count - 1)| {
        DecimalGrows(i, count - 1);
      }
    }
  }

  // ----------------------------------------------------------------- record lists

  /** A record list fits exactly when each of its records does. */
  lemma AllFitAt(records: seq<Record>)
    ensures AllFit(records) <==> forall i :: 0 <= i < |records| ==> Fits(records[i])
  {
    if AllFit(records) {
      forall i | 0 <= i < |records| ensures Fits(records[i]) {
        assert records[i] in records;
      }
    }
  }

  lemma ListFits(items: seq<bytes>)
    ensures AllFit(StringListRecords(items)) <==> ShortList(items)
  {
    var records := StringListRecords(items);
    AllFitAt(records);
    IndexesFit("i", |items|);
    assert forall i :: 0 <= i < |items| ==> records[i] == Record(IndexTag("i", i), items[i]);
    if AllFit(records) {
      forall i | 0 <= i < |items| ensures |IndexTag("i", i)| < 0x1_0000 && Short(items[i]) {
        assert Fits(records[i]);
      }
    }
    if ShortList(items) {
      forall i | 0 <= i < |items| ensures Fits(records[i]) {
        assert items[i] in items;
      }
    }
  }

  /** An entry list fits exactly when its names and values are short: sorting loses no entry. */
  lemma EntriesFit(env: seq<EnvVar>)
    ensures AllFit(EnvRecords(env)) <==> ShortEntries(env)
  {
    var sorted, records := Sort(env, EnvName), EnvRecords(env);
    SortProperties(env, EnvName);
    SameEntries(sorted, env);
    forall i | 0 <= i < |sorted| ensures records[i] in records && sorted[i] in env {
      assert sorted[i] in sorted;
    }
    if AllFit(records) {
      forall e | e in env ensures ShortEntry(e) {
        var i :| 0 <= i < |sorted| && sorted[i] == e;
        assert Fits(records[i]);
      }
    }
  }

  lemma PortsFit(ports: seq<Port>)
    ensures AllFit(PortRecords(ports)) <==> ShortPorts(ports)
  {
    var records := PortRecords(ports);
    AllFitAt(records);
    IndexesFit("p", |ports|);
    assert forall i :: 0 <= i < |ports| ==> records[i].tag == IndexTag("p", i);
    assert forall i :: 0 <= i < |ports| ==> |records[i].value| == 4 + |ports[i].protocol|;
    if AllFit(records) {
      forall i | 0 <= i < |ports|
        ensures |IndexTag("p", i)| < 0x1_0000 && |ports[i].protocol| < 0x1_0000_0000 - 4
      {
        assert Fits(records[i]);
      }
    }
    if ShortPorts(ports) {
      forall i | 0 <= i < |ports| ensures Fits(records[i]) {
        assert ports[i] in ports;
      }
    }
  }

  lemma MountFitsExactly(h: Digest, m: Mount)
    ensures MountFits(h, m) <==> ShortMount(m)
  {
    var records := MountRecords(h, m);
    var digest: bytes32 := h(Encode(StringListRecords(m.options)));
    ListFits(m.options);
    AllFitAt(records);
    assert records[0].value == m.source && records[1].value == m.destination;
    assert records[2].value == m.mountType && records[3].value == digest;
  }

  lemma MountLabelsFit(h: Digest, mounts: seq<Mount>)
    ensures AllFit(MountListRecords(h, mounts)) <==> ShortIndexes(|mounts|)
  {
    var records := MountListRecords(h, mounts);
    AllFitAt(records);
    IndexesFit("m", |mounts|);
    forall i | 0 <= i < |mounts| ensures Fits(records[i]) <==> |IndexTag("m", i)| < 0x1_0000 {
      var digest: bytes32 := h(Encode(MountRecords(h, mounts[i])));
      assert records[i] == Record(IndexTag("m", i), digest);
    }
  }

  lemma MountsFit(h: Digest, mounts: seq<Mount>)
    ensures AllFit(MountListRecords(h, mounts)) && (forall m :: m in mounts ==> MountFits(h, m)) <==>
            ShortMounts(mounts)
  {
    MountLabelsFit(h, mounts);
    forall m: Mount ensures MountFits(h, m) <==> ShortMount(m) {
      MountFitsExactly(h, m);
    }
  }

  lemma OciFitsExactly(h: Digest, o: OciRuntimeSpec)
    ensures OciFits(h, o) <==> ShortOci(o)
  {
    ListFits(o.command);
    ListFits(o.args);
    EntriesFit(o.env);
    PortsFit(o.ports);
    MountsFit(h, o.mounts);
    ListFits(o.capabilities.add);
    ListFits(o.capabilities.drop);
    EntriesFit(o.resources.requests);
    EntriesFit(o.resources.limits);
  }

  lemma FirstFieldsFit(h: Digest, d: DeploymentDescriptor)
    requires ShortTexts(d)
    ensures forall i :: 0 <= i < 14 ==> Fits(FieldRecords(h, d)[i])
  {
  }

  lemma LastFieldsFit(h: Digest, d: DeploymentDescriptor)
    requires ShortTexts(d)
    ensures forall i :: 14 <= i < 27 ==> Fits(FieldRecords(h, d)[i])
  {
  }

  lemma NamesShort(h: Digest, d: DeploymentDescriptor)
    requires forall i :: 0 <= i < 27 ==> Fits(FieldRecords(h, d)[i])
    ensures Short(d.schemaVersion) && Short(d.orgSlug) && Short(d.appName) && Short(d.createdAt)
  {
    var r := FieldRecords(h, d);
    assert Fits(r[0]) && Fits(r[2]) && Fits(r[4]) && Fits(r[6]);
  }

  lemma DomainsShort(h: Digest, d: DeploymentDescriptor)
    requires forall i :: 0 <= i < 27 ==> Fits(FieldRecords(h, d)[i])
    ensures Short(d.appDomain) && Short(d.teeDomain) && Short(d.namespace) && Short(d.serviceAccount)
  {
    var r := FieldRecords(h, d);
    assert Fits(r[8]) && Fits(r[9]) && Fits(r[11]) && Fits(r[12]);
  }

  lemma ImageShort(h: Digest, d: DeploymentDescriptor)
    requires forall i :: 0 <= i < 27 ==> Fits(FieldRecords(h, d)[i])
    ensures Short(d.imageRef) && Short(d.imageDigest) && Short(d.apiSigningPubkey) && Short(d.expectedRuntimeClass)
  {
    var r := FieldRecords(h, d);
    assert Fits(r[14]) && Fits(r[15]) && Fits(r[19]) && Fits(r[21]);
  }

  lemma PolicyShort(h: Digest, d: DeploymentDescriptor)
    requires forall i :: 0 <= i < 27 ==> Fits(FieldRecords(h, d)[i])
    ensures Short(d.kbsResourcePath) && Short(d.unlockMode)
    ensures Short(d.policyTemplateId) && Short(d.platformReleaseVersion)
  {
    var r := FieldRecords(h, d);
    assert Fits(r[22]) && Fits(r[23]) && Fits(r[24]) && Fits(r[26]);
  }

  lemma FieldsShort(h: Digest, d: DeploymentDescriptor)
    requires forall i :: 0 <= i < 27 ==> Fits(FieldRecords(h, d)[i])
    ensures ShortTexts(d)
  {
    NamesShort(h, d);
    DomainsShort(h, d);
    ImageShort(h, d);
    PolicyShort(h, d);
  }

  lemma FieldsFit(h: Digest, d: DeploymentDescriptor)
    ensures AllFit(FieldRecords(h, d)) <==> ShortTexts(d)
  {
    AllFitAt(FieldRecords(h, d));
    if ShortTexts(d) {
      FirstFieldsFit(h, d);
      LastFieldsFit(h, d);
    }
    if AllFit(FieldRecords(h, d)) {
      FieldsShort(h, d);
    }
  }

  lemma ConcatFits(a: seq<Record>, b: seq<Record>)
    ensures AllFit(a + b) <==> AllFit(a) && AllFit(b)
  {
    assert forall r :: r in a + b <==> r in a || r in b;
  }

  lemma SmallRecordsFit(d: DeploymentDescriptor)
    ensures AllFit([Record(Ascii("purpose"), DESCRIPTOR_PURPOSE)])
    ensures AllFit(FlagRecords(d)) && AllFit(AnchorRecords(d))
  {
  }

  lemma RecordsFit(h: Digest, d: DeploymentDescriptor)
    ensures AllFit(DescriptorRecords(h, d, DESCRIPTOR_PURPOSE, true)) <==> ShortTexts(d)
  {
    var first := [Record(Ascii("purpose"), DESCRIPTOR_PURPOSE)];
    SmallRecordsFit(d);
    FieldsFit(h, d);
    ConcatFits(first, FieldRecords(h, d));
    ConcatFits(first + FieldRecords(h, d), FlagRecords(d));
    ConcatFits(first + FieldRecords(h, d) + FlagRecords(d), AnchorRecords(d));
  }

  lemma PairsFit(d: DeploymentDescriptor)
    ensures AllFit(SignerRecords(d.signerIdentity)) <==>
            Short(d.signerIdentity.subject) && Short(d.signerIdentity.issuer)
    ensures AllFit(SidecarRecords(d.sidecars)) <==>
            Short(d.sidecars.attestationProxyDigest) && Short(d.sidecars.caddyDigest)
  {
    var signer, sidecars := SignerRecords(d.signerIdentity), SidecarRecords(d.sidecars);
    AllFitAt(signer);
    AllFitAt(sidecars);
    assert signer[0].value == d.signerIdentity.subject && signer[1].value == d.signerIdentity.issuer;
    assert sidecars[0].value == d.sidecars.attestationProxyDigest && sidecars[1].value == d.sidecars.caddyDigest;
  }

  /** A descriptor is encoded without a panic exactly when its texts are short, its entry names fit
      a label, and the indexes of its numbered lists do; the digest does not matter. */
  lemma DescriptorFitsExactly(h: Digest, d: DeploymentDescriptor)
    ensures DescriptorFits(h, d) <==> ShortDescriptor(d)
  {
    ListFits(d.customDomains);
    PairsFit(d);
    OciFitsExactly(h, d.ociRuntimeSpec);
    RecordsFit(h, d);
  }

  /** A keyring is encoded without a panic exactly when its timestamps are short. */
  lemma KeyringFitsExactly(h: Digest, k: OrgKeyring)
    ensures KeyringFits(h, k) <==> ShortKeyring(k)
  {
    forall m: Member ensures AllFit(MemberRecords(m)) <==> Short(m.addedAt) {
      var r := MemberRecords(m);
      assert r[3] in r;
    }
    var r, sorted := KeyringRecords(h, k), Sort(k.members, UserId);
    forall i | 0 <= i < |sorted| ensures Fits(MemberListRecords(h, k.members)[i]) {
      var digest: bytes32 := h(Encode(MemberRecords(sorted[i])));
      assert MemberListRecords(h, k.members)[i] == Record(TextCodecs.UuidText(sorted[i].userId), digest);
    }
    assert r[4] in r;
  }
}
