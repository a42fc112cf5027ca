/** Capability profiles: the checks that a capability list is exactly a required set
    (signing-service/src/policy.rs and genpolicy.rs). */
module CapabilityProfiles {
  import opened Bytes
  import opened Descriptor

  function LowerByte(c: byte): byte {
    if 65 <= c <= 90 then c + 32 else c
  }

  function Lower(name: bytes): (r: bytes)
    ensures |r| == |name|
  {
    seq(|name|, i requires 0 <= i < |name| => LowerByte(name[i]))
  }

  function LowerAll(names: seq<bytes>): (r: seq<bytes>)
    ensures |r| == |names|
  {
    seq(|names|, i requires 0 <= i < |names| => Lower(names[i]))
  }

  predicate EqIgnoreAsciiCase(a: bytes, b: bytes) {
    Lower(a) == Lower(b)
  }

  const SSH_RELAY_CAPS: seq<bytes> :=
    [Ascii("CHOWN"), Ascii("DAC_OVERRIDE"), Ascii("FOWNER"), Ascii("SETGID"), Ascii("SETUID")]

  const ROOTFUL_SUDO_CAPS: seq<bytes> :=
    [Ascii("CHOWN"), Ascii("DAC_OVERRIDE"), Ascii("FOWNER"), Ascii("SETGID"), Ascii("SETUID"),
     Ascii("AUDIT_WRITE")]

  /** The check as written: ALL is dropped, the add list has the right length, and each
      required name occurs in it, ignoring ASCII case. */
  predicate CapabilitiesMatch(caps: Capabilities, required: seq<bytes>) {
    && (exists c :: c in caps.drop && EqIgnoreAsciiCase(c, Ascii("ALL")))
    && |caps.add| == |required|
    && (forall r :: r in required ==> exists c :: c in caps.add && EqIgnoreAsciiCase(c, r))
  }

  predicate UsesSshRelay(o: OciRuntimeSpec) {
    var s := o.securityContext;
    && s.runAsUser == 0 && s.runAsGroup == 0 && s.readOnlyRootFs
    && !s.allowPrivilegeEscalation && !s.privileged
    && CapabilitiesMatch(o.capabilities, SSH_RELAY_CAPS)
  }

  /** The rootful-sudo profile as the artifact signer checks it. */
  predicate UsesRootfulSudo(o: OciRuntimeSpec) {
    var s := o.securityContext;
    && s.runAsUser == 0 && s.runAsGroup == 0 && !s.readOnlyRootFs
    && s.allowPrivilegeEscalation && !s.privileged
    && CapabilitiesMatch(o.capabilities, ROOTFUL_SUDO_CAPS)
  }

  /** The generator's own list of the same capabilities. */
  const GENERATOR_SUDO_CAPS: seq<bytes> :=
    [Ascii("CHOWN"), Ascii("DAC_OVERRIDE"), Ascii("FOWNER"), Ascii("SETGID"), Ascii("SETUID"),
     Ascii("AUDIT_WRITE")]

  /** The rootful-sudo profile as the generator checks it, in one expression of its own. */
  predicate GeneratorUsesRootfulSudo(o: OciRuntimeSpec) {
    && o.securityContext.runAsUser == 0
    && o.securityContext.runAsGroup == 0
    && !o.securityContext.readOnlyRootFs
    && o.securityContext.allowPrivilegeEscalation
    && !o.securityContext.privileged
    && (exists c :: c in o.capabilities.drop && EqIgnoreAsciiCase(c, Ascii("ALL")))
    && |o.capabilities.add| == |GENERATOR_SUDO_CAPS|
    && (forall r :: r in GENERATOR_SUDO_CAPS ==> exists c :: c in o.capabilities.add && EqIgnoreAsciiCase(c, r))
  }

  datatype FloorError = Privileged | EscalationWithoutProfile

  /** The security floor that every signed descriptor meets. */
  function SecurityFloor(o: OciRuntimeSpec): Option<FloorError> {
    if o.securityContext.privileged then Some(Privileged)
    else if o.securityContext.allowPrivilegeEscalation && !UsesRootfulSudo(o) then
      Some(EscalationWithoutProfile)
    else None
  }

  ghost predicate Distinct(names: seq<bytes>) {
    forall i, j :: 0 <= i < j < |names| ==> names[i] != names[j]
  }

  /** Pigeonhole: a list as long as a list of distinct names, and containing each of
      them, is a rearrangement of it. */
  lemma {:induction false} Pigeonhole(required: seq<bytes>, names: seq<bytes>)
    requires Distinct(required) && |names| == |required|
    requires forall r :: r in required ==> r in names
    ensures multiset(names) == multiset(required)
  {
    if required == [] {
    } else {
      var first, rest := required[0], required[1..];
      assert required == [first] + rest;
      assert first in required;
      var i :| 0 <= i < |names| && names[i] == first;
      var others := names[..i] + names[i + 1..];
      assert names == names[..i] + [first] + names[i + 1..];
      forall r | r in rest ensures r in others {
        assert r in required && r in names;
        var j :| 0 <= j < |rest| && rest[j] == r;
        assert required[j + 1] == r != first;
      }
      Pigeonhole(rest, others);
    }
  }

  lemma RequiredDistinct()
    ensures Distinct(LowerAll(SSH_RELAY_CAPS)) && Distinct(LowerAll(ROOTFUL_SUDO_CAPS))
  {
    var a, b := LowerAll(SSH_RELAY_CAPS), LowerAll(ROOTFUL_SUDO_CAPS);
    assert |a[0]| == 5 && |a[1]| == 12 && |a[2]| == 6 && |a[3]| == 6 && |a[4]| == 6;
    assert a[2][0] == 102 && a[3][0] == 115 && a[4][0] == 115;
    assert a[3][3] == 103 && a[4][3] == 117;
    assert |b[0]| == 5 && |b[1]| == 12 && |b[2]| == 6 && |b[3]| == 6 && |b[4]| == 6 && |b[5]| == 11;
    assert b[2][0] == 102 && b[3][0] == 115 && b[4][0] == 115;
    assert b[3][3] == 103 && b[4][3] == 117;
  }

  /** The check accepts exactly the lists that are, ignoring ASCII case, a rearrangement
      of the required names: nothing extra, nothing repeated, nothing missing. */
  lemma MatchIsExact(caps: Capabilities, required: seq<bytes>)
    requires Distinct(LowerAll(required))
    ensures CapabilitiesMatch(caps, required) <==>
            && (exists c :: c in caps.drop && EqIgnoreAsciiCase(c, Ascii("ALL")))
            && multiset(LowerAll(caps.add)) == multiset(LowerAll(required))
  {
    var names, wanted := LowerAll(caps.add), LowerAll(required);
    if CapabilitiesMatch(caps, required) {
      forall w | w in wanted ensures w in names {
        var i :| 0 <= i < |wanted| && wanted[i] == w;
        assert required[i] in required;
        var c :| c in caps.add && EqIgnoreAsciiCase(c, required[i]);
        var j :| 0 <= j < |caps.add| && caps.add[j] == c;
        assert names[j] == w;
      }
      Pigeonhole(wanted, names);
    }
    if multiset(names) == multiset(wanted) {
      assert |names| == |multiset(names)| == |multiset(wanted)| == |wanted|;
      forall r | r in required ensures exists c :: c in caps.add && EqIgnoreAsciiCase(c, r) {
        var i :| 0 <= i < |required| && required[i] == r;
        assert wanted[i] in multiset(wanted) && wanted[i] in names;
        var j :| 0 <= j < |names| && names[j] == wanted[i];
        assert caps.add[j] in caps.add;
      }
    }
  }

  /** Both implementations of the rootful-sudo profile accept exactly the same specs: root, a
      writable root file system, escalation without full privilege, ALL dropped, and a
      rearrangement of the required capabilities added. */
  lemma RootfulSudoExactly(o: OciRuntimeSpec)
    ensures GeneratorUsesRootfulSudo(o) <==> UsesRootfulSudo(o)
    ensures UsesRootfulSudo(o) <==>
            && o.securityContext == SecurityContext(0, 0, false, true, false)
            && (exists c :: c in o.capabilities.drop && EqIgnoreAsciiCase(c, Ascii("ALL")))
            && multiset(LowerAll(o.capabilities.add)) == multiset(LowerAll(ROOTFUL_SUDO_CAPS))
  {
    RequiredDistinct();
    MatchIsExact(o.capabilities, ROOTFUL_SUDO_CAPS);
    MatchIsExact(o.capabilities, GENERATOR_SUDO_CAPS);
  }

  /** A descriptor that passes the floor and may escalate privileges adds exactly the
      rootful-sudo capabilities; the two profiles exclude each other. */
  lemma FloorIsExact(o: OciRuntimeSpec)
    requires SecurityFloor(o).None?
    ensures !o.securityContext.privileged
    ensures o.securityContext.allowPrivilegeEscalation ==>
              && multiset(LowerAll(o.capabilities.add)) == multiset(LowerAll(ROOTFUL_SUDO_CAPS))
              && o.securityContext.runAsUser == 0 && !o.securityContext.readOnlyRootFs
              && !UsesSshRelay(o)
    ensures UsesSshRelay(o) ==>
              multiset(LowerAll(o.capabilities.add)) == multiset(LowerAll(SSH_RELAY_CAPS))
  {
    RequiredDistinct();
    MatchIsExact(o.capabilities, ROOTFUL_SUDO_CAPS);
    MatchIsExact(o.capabilities, SSH_RELAY_CAPS);
  }

  /** Case is ignored for ASCII letters only: equal lengths, and byte for byte equal or the two cases
      of one letter. */
  lemma IgnoresCaseOnly(a: bytes, b: bytes)
    ensures EqIgnoreAsciiCase(a, b) <==>
            && |a| == |b|
            && forall i :: 0 <= i < |a| ==>
                 || a[i] == b[i] || (65 <= a[i] <= 90 && b[i] == a[i] + 32) || (65 <= b[i] <= 90 && a[i] == b[i] + 32)
  {
    if EqIgnoreAsciiCase(a, b) {
      assert |Lower(a)| == |Lower(b)|;
      forall i | 0 <= i < |a| ensures LowerByte(a[i]) == LowerByte(b[i]) {
        assert Lower(a)[i] == Lower(b)[i];
      }
    }
  }

  lemma LowerNames()
    ensures Lower(Ascii("CHOWN")) == Ascii("chown") && Lower(Ascii("DAC_OVERRIDE")) == Ascii("dac_override")
    ensures Lower(Ascii("FOWNER")) == Ascii("fowner") && Lower(Ascii("SETGID")) == Ascii("setgid")
  {
  }

  lemma MoreLowerNames()
    ensures Lower(Ascii("SETUID")) == Ascii("setuid") && Lower(Ascii("AUDIT_WRITE")) == Ascii("audit_write")
  {
  }

  lemma SudoNames()
    ensures LowerAll(ROOTFUL_SUDO_CAPS)
            == [Ascii("chown"), Ascii("dac_override"), Ascii("fowner"), Ascii("setgid"), Ascii("setuid"),
                Ascii("audit_write")]
  {
    LowerNames();
    MoreLowerNames();
  }

  lemma RelayNames()
    ensures LowerAll(SSH_RELAY_CAPS)
            == [Ascii("chown"), Ascii("dac_override"), Ascii("fowner"), Ascii("setgid"), Ascii("setuid")]
  {
    LowerNames();
    MoreLowerNames();
  }

  /** The floor in full: not privileged, and escalation only as root without a group, with a writable
      root file system, ALL dropped and exactly the six capabilities added, in any order and case. */
  lemma FloorExactly(o: OciRuntimeSpec)
    ensures SecurityFloor(o).None? <==>
            && !o.securityContext.privileged
            && (o.securityContext.allowPrivilegeEscalation ==>
                  && o.securityContext.runAsUser == 0 && o.securityContext.runAsGroup == 0
                  && !o.securityContext.readOnlyRootFs
                  && (exists c :: c in o.capabilities.drop && EqIgnoreAsciiCase(c, Ascii("ALL")))
                  && multiset(LowerAll(o.capabilities.add))
                     == multiset([Ascii("chown"), Ascii("dac_override"), Ascii("fowner"), Ascii("setgid"),
                                  Ascii("setuid"), Ascii("audit_write")]))
    ensures SecurityFloor(o) == Some(Privileged) <==> o.securityContext.privileged
  {
    RootfulSudoExactly(o);
    SudoNames();
  }
}
