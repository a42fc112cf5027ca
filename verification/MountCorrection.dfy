/** Correction of mount propagation in generated policy data (signing-service/src/genpolicy.rs,
    normalize_guest_memory_mount_propagation): a loop over seven targets that updates a JSON
    tree, compared with one map over the original tree. */
module MountCorrection {
  import opened Bytes

  /** A JSON tree; object keys are kept in a map, as the source's parser does. */
  datatype Json =
    | Null
    | Bool(value: bool)
    | Number(text: string)
    | Str(s: string)
    | Arr(items: seq<Json>)
    | Obj(fields: map<string, Json>)

  datatype Target = Target(
    container: string, volume: string, destination: string, propagation: string, required: bool)

  datatype MountError =
    | MissingPolicyData | InvalidPolicyData | MissingContainers
    | ContainerMissingOrDuplicated | MissingMounts | MountMissingOrDuplicated | UnexpectedShape

  const TARGETS: seq<Target> :=
    [Target("web", "state-mount", "/state", "rslave", true),
     Target("web", "logs", "/run/enclava-logs", "rslave", false),
     Target("attestation-proxy", "state-mount", "/data", "rslave", true),
     Target("attestation-proxy", "state-mount", "/state", "rslave", true),
     Target("enclava-init", "state-mount", "/state", "rshared", true),
     Target("enclava-init", "tls-state-mount", "/state/tls-state", "rshared", true),
     Target("enclava-init", "logs", "/run/enclava-logs", "rshared", false)]

  function Field(j: Json, key: string): Option<Json> {
    if j.Obj? && key in j.fields then Some(j.fields[key]) else None
  }

  function Inside(j: Option<Json>, key: string): Option<Json> {
    if j.Some? then Field(j.value, key) else None
  }

  function ContainerName(c: Json): Option<Json> {
    Inside(Inside(Field(c, "OCI"), "Annotations"), "io.kubernetes.cri.container-name")
  }

  predicate NameIs(c: Json, name: string) {
    ContainerName(c) == Some(Str(name))
  }

  predicate HasMounts(c: Json) {
    var mounts := Inside(Field(c, "OCI"), "Mounts");
    mounts.Some? && mounts.value.Arr?
  }

  function MountsOf(c: Json): seq<Json>
    requires HasMounts(c)
  {
    c.fields["OCI"].fields["Mounts"].items
  }

  function WithMounts(c: Json, mounts: seq<Json>): Json
    requires HasMounts(c)
  {
    Obj(c.fields["OCI" := Obj(c.fields["OCI"].fields["Mounts" := Arr(mounts)])])
  }

  predicate DestinationIs(m: Json, destination: string) {
    Field(m, "destination") == Some(Str(destination))
  }

  function Options(propagation: string): Json {
    Arr([Str("rbind"), Str(propagation), Str("rw")])
  }

  /** The exact shape that a targeted mount must have before it is corrected. */
  predicate ShapeOk(m: Json, t: Target) {
    && Field(m, "source") == Some(Str("^/run/kata-containers/sandbox/ephemeral/" + t.volume + "$"))
    && Field(m, "type_") == Some(Str("bind"))
    && Field(m, "options") == Some(Options("rprivate"))
  }

  function SetOptions(m: Json, propagation: string): Json
    requires m.Obj?
  {
    Obj(m.fields["options" := Options(propagation)])
  }

  /** The indexes of the elements that satisfy a predicate. */
  function Positions<T>(xs: seq<T>, p: T -> bool): (r: seq<nat>)
    ensures forall i :: 0 <= i < |r| ==> r[i] < |xs|
  {
    if xs == [] then []
    else
      var n := |xs| - 1;
      var rest := Positions(xs[..n], p);
      if p(xs[n]) then rest + [n] else rest
  }

  lemma {:induction false} PositionsExactly<T>(xs: seq<T>, p: T -> bool)
    ensures forall i: nat :: i in Positions(xs, p) <==> i < |xs| && p(xs[i])
    ensures forall i, j :: 0 <= i < j < |Positions(xs, p)| ==> Positions(xs, p)[i] < Positions(xs, p)[j]
    ensures forall i :: 0 <= i < |Positions(xs, p)| ==> Positions(xs, p)[i] in Positions(xs, p)
  {
    if xs == [] {
    } else {
      PositionsExactly(xs[..|xs| - 1], p);
    }
  }

  function Named(containers: seq<Json>, name: string): seq<nat> {
    Positions(containers, c => NameIs(c, name))
  }

  lemma NamedExactly(containers: seq<Json>, name: string)
    ensures forall i: nat :: i in Named(containers, name) <==> i < |containers| && NameIs(containers[i], name)
    ensures |Named(containers, name)| > 0 ==> Named(containers, name)[0] in Named(containers, name)
  {
    PositionsExactly(containers, c => NameIs(c, name));
  }

  function At(mounts: seq<Json>, destination: string): seq<nat> {
    Positions(mounts, m => DestinationIs(m, destination))
  }

  lemma AtExactly(mounts: seq<Json>, destination: string)
    ensures forall i: nat :: i in At(mounts, destination) <==> i < |mounts| && DestinationIs(mounts[i], destination)
    ensures |At(mounts, destination)| > 0 ==> At(mounts, destination)[0] in At(mounts, destination)
  {
    PositionsExactly(mounts, m => DestinationIs(m, destination));
  }

  // ------------------------------------------------------------- one-shot view

  /** Why a target is refused, judged on a given tree. */
  function TargetError(containers: seq<Json>, t: Target): Option<MountError> {
    var matching := Named(containers, t.container);
    if |matching| != 1 then Some(ContainerMissingOrDuplicated)
    else
      var c := containers[matching[0]];
      if !HasMounts(c) then Some(MissingMounts)
      else
        var found := At(MountsOf(c), t.destination);
        if |found| == 0 && !t.required then None
        else if |found| != 1 then Some(MountMissingOrDuplicated)
        else
          if ShapeOk(MountsOf(c)[found[0]], t) then None else Some(UnexpectedShape)
  }

  /** The tree after an accepted target: one entry of one mount list is updated, or nothing. */
  ghost function Applied(containers: seq<Json>, t: Target): seq<Json>
    requires TargetError(containers, t).None?
  {
    var c := Named(containers, t.container)[0];
    var mounts := MountsOf(containers[c]);
    var found := At(mounts, t.destination);
    if |found| == 0 then containers
    else
      containers[c := WithMounts(containers[c], mounts[found[0] := SetOptions(mounts[found[0]], t.propagation)])]
  }

  function Guard(containers: seq<Json>): Target -> Option<MountError> {
    t => TargetError(containers, t)
  }

  /** The first refusal in target order, every target judged by the same guard. */
  function FirstError(guard: Target -> Option<MountError>, targets: seq<Target>): Option<MountError> {
    if targets == [] then None
    else if guard(targets[0]).Some? then guard(targets[0])
    else FirstError(guard, targets[1..])
  }

  /** A mount of a container after the given targets: the last target that names both
      sets its options. */
  function CorrectedMount(c: Json, m: Json, targets: seq<Target>): Json {
    if targets == [] then m
    else
      var n := |targets| - 1;
      if NameIs(c, targets[n].container) && DestinationIs(m, targets[n].destination) then
        SetOptions(m, targets[n].propagation)
      else CorrectedMount(c, m, targets[..n])
  }

  function CorrectedMounts(c: Json, targets: seq<Target>): seq<Json>
    requires HasMounts(c)
  {
    var mounts := MountsOf(c);
    seq(|mounts|, i requires 0 <= i < |mounts| => CorrectedMount(c, mounts[i], targets))
  }

  function CorrectedContainer(c: Json, targets: seq<Target>): Json {
    if HasMounts(c) then WithMounts(c, CorrectedMounts(c, targets)) else c
  }

  /** All targets at once, every mount looked at once. */
  function Corrected(containers: seq<Json>, targets: seq<Target>): seq<Json> {
    seq(|containers|, i requires 0 <= i < |containers| => CorrectedContainer(containers[i], targets))
  }

  ghost predicate DistinctFrom(targets: seq<Target>, t: Target) {
    forall i :: 0 <= i < |targets| ==>
      targets[i].container != t.container || targets[i].destination != t.destination
  }

  ghost predicate PairwiseDistinct(targets: seq<Target>) {
    forall i, k :: 0 <= i < k < |targets| ==>
      targets[i].container != targets[k].container || targets[i].destination != targets[k].destination
  }

  lemma TargetsDistinct()
    ensures PairwiseDistinct(TARGETS)
  {
    assert |"web"| == 3 && |"attestation-proxy"| == 17 && |"enclava-init"| == 12;
    assert |"/state"| == 6 && |"/run/enclava-logs"| == 17 && |"/data"| == 5 && |"/state/tls-state"| == 16;
  }

  lemma {:induction false} FirstErrorExtends(
    guard: Target -> Option<MountError>, before: seq<Target>, t: Target, after: seq<Target>)
    requires FirstError(guard, before).None?
    ensures FirstError(guard, before + [t]) == guard(t)
    ensures guard(t).Some? ==> FirstError(guard, before + [t] + after) == guard(t)
  {
    if before == [] {
      assert before + [t] + after == [t] + after && before + [t] == [t];
    } else {
      FirstErrorExtends(guard, before[1..], t, after);
      assert (before + [t] + after)[1..] == before[1..] + [t] + after;
      assert (before + [t])[1..] == before[1..] + [t];
    }
  }

  lemma NextError(guard: Target -> Option<MountError>, targets: seq<Target>, k: nat)
    requires k < |targets| && FirstError(guard, targets[..k]).None?
    ensures FirstError(guard, targets[..k + 1]) == guard(targets[k])
    ensures guard(targets[k]).Some? ==> FirstError(guard, targets) == guard(targets[k])
  {
    FirstErrorExtends(guard, targets[..k], targets[k], targets[k + 1..]);
    assert targets[..k + 1] == targets[..k] + [targets[k]];
    assert targets == targets[..k] + [targets[k]] + targets[k + 1..];
  }

  /** A target is judged alike on the original tree and on the tree that the targets
      before it have corrected. */
  lemma NextGuard(containers: seq<Json>, targets: seq<Target>, k: nat)
    requires k < |targets| && PairwiseDistinct(targets)
    ensures DistinctFrom(targets[..k], targets[k])
    ensures TargetError(Corrected(containers, targets[..k]), targets[k]) == Guard(containers)(targets[k])
  {
    SameGuard(containers, targets[..k], targets[k]);
  }

  // -------------------------------------------------------- what correcting keeps

  lemma WithMountsKeeps(c: Json, mounts: seq<Json>)
    requires HasMounts(c)
    ensures HasMounts(WithMounts(c, mounts)) && MountsOf(WithMounts(c, mounts)) == mounts
    ensures ContainerName(WithMounts(c, mounts)) == ContainerName(c)
    ensures WithMounts(c, MountsOf(c)) == c
    ensures forall other :: WithMounts(WithMounts(c, mounts), other) == WithMounts(c, other)
  {
    assert "OCI" in c.fields && "Mounts" != "Annotations";
    var oci := c.fields["OCI"];
    assert oci.fields["Mounts" := Arr(MountsOf(c))] == oci.fields;
    assert c.fields["OCI" := oci] == c.fields;
    forall other ensures WithMounts(WithMounts(c, mounts), other) == WithMounts(c, other) {
      assert oci.fields["Mounts" := Arr(mounts)]["Mounts" := Arr(other)] == oci.fields["Mounts" := Arr(other)];
    }
  }

  /** A corrected mount keeps its destination; a mount that no target names is kept. */
  lemma {:induction false} CorrectedMountKeeps(c: Json, m: Json, targets: seq<Target>)
    ensures forall d :: DestinationIs(CorrectedMount(c, m, targets), d) <==> DestinationIs(m, d)
    ensures forall t :: DistinctFrom(targets, t) && NameIs(c, t.container) && DestinationIs(m, t.destination) ==>
              CorrectedMount(c, m, targets) == m
  {
    if targets == [] {
    } else {
      var n := |targets| - 1;
      CorrectedMountKeeps(c, m, targets[..n]);
      assert "options" != "destination";
      forall t | DistinctFrom(targets, t) ensures DistinctFrom(targets[..n], t) {
      }
    }
  }

  lemma CorrectedContainerKeeps(c: Json, targets: seq<Target>)
    ensures forall name :: NameIs(CorrectedContainer(c, targets), name) <==> NameIs(c, name)
    ensures HasMounts(CorrectedContainer(c, targets)) <==> HasMounts(c)
    ensures HasMounts(c) ==> MountsOf(CorrectedContainer(c, targets)) == CorrectedMounts(c, targets)
  {
    if HasMounts(c) {
      WithMountsKeeps(c, CorrectedMounts(c, targets));
    }
  }

  lemma CorrectedByNone(containers: seq<Json>)
    ensures Corrected(containers, []) == containers
  {
    forall i | 0 <= i < |containers| ensures CorrectedContainer(containers[i], []) == containers[i] {
      var c := containers[i];
      if HasMounts(c) {
        assert CorrectedMounts(c, []) == MountsOf(c);
        WithMountsKeeps(c, MountsOf(c));
      }
    }
  }

  lemma {:induction false} SamePositions<T>(xs: seq<T>, ys: seq<T>, p: T -> bool)
    requires |xs| == |ys| && forall i :: 0 <= i < |xs| ==> p(xs[i]) == p(ys[i])
    ensures Positions(xs, p) == Positions(ys, p)
  {
    if xs == [] {
    } else {
      SamePositions(xs[..|xs| - 1], ys[..|ys| - 1], p);
    }
  }

  lemma SameNamed(containers: seq<Json>, targets: seq<Target>, name: string)
    ensures Named(Corrected(containers, targets), name) == Named(containers, name)
  {
    var after := Corrected(containers, targets);
    forall i | 0 <= i < |containers| ensures NameIs(after[i], name) == NameIs(containers[i], name) {
      CorrectedContainerKeeps(containers[i], targets);
    }
    SamePositions(after, containers, c => NameIs(c, name));
  }

  lemma SameAt(c: Json, targets: seq<Target>, destination: string)
    requires HasMounts(c)
    ensures At(CorrectedMounts(c, targets), destination) == At(MountsOf(c), destination)
  {
    var before, after := MountsOf(c), CorrectedMounts(c, targets);
    forall i | 0 <= i < |before|
      ensures DestinationIs(after[i], destination) == DestinationIs(before[i], destination)
    {
      CorrectedMountKeeps(c, before[i], targets);
    }
    SamePositions(after, before, m => DestinationIs(m, destination));
  }

  /** A further target is judged alike on the original tree and on the tree that other
      targets have corrected. */
  lemma SameGuard(containers: seq<Json>, targets: seq<Target>, t: Target)
    requires DistinctFrom(targets, t)
    ensures TargetError(Corrected(containers, targets), t) == TargetError(containers, t)
  {
    SameNamed(containers, targets, t.container);
    var matching := Named(containers, t.container);
    if |matching| == 1 {
      NamedExactly(containers, t.container);
      var c := containers[matching[0]];
      CorrectedContainerKeeps(c, targets);
      if HasMounts(c) {
        SameAt(c, targets, t.destination);
        var found := At(MountsOf(c), t.destination);
        if |found| == 1 {
          AtExactly(MountsOf(c), t.destination);
          CorrectedMountKeeps(c, MountsOf(c)[found[0]], targets);
        }
      }
    }
  }

  /** A target that names no mount of the container changes no mount of it. */
  lemma OtherMount(c: Json, m: Json, targets: seq<Target>, t: Target)
    requires !NameIs(c, t.container) || !DestinationIs(m, t.destination)
    ensures CorrectedMount(c, m, targets + [t]) == CorrectedMount(c, m, targets)
  {
    assert (targets + [t])[..|targets|] == targets;
  }

  lemma OtherContainer(c: Json, targets: seq<Target>, t: Target)
    requires !NameIs(c, t.container) || (HasMounts(c) && At(MountsOf(c), t.destination) == [])
    ensures CorrectedContainer(c, targets + [t]) == CorrectedContainer(c, targets)
  {
    if HasMounts(c) {
      var mounts := MountsOf(c);
      forall i | 0 <= i < |mounts|
        ensures CorrectedMount(c, mounts[i], targets + [t]) == CorrectedMount(c, mounts[i], targets)
      {
        AtExactly(mounts, t.destination);
        assert i !in At(mounts, t.destination) || !NameIs(c, t.container);
        OtherMount(c, mounts[i], targets, t);
      }
      assert CorrectedMounts(c, targets + [t]) == CorrectedMounts(c, targets);
    }
  }

  /** An optional target without a mount changes nothing. */
  lemma StepAbsent(containers: seq<Json>, targets: seq<Target>, t: Target)
    requires var before := Corrected(containers, targets);
             && |Named(before, t.container)| == 1
             && var c := Named(before, t.container)[0];
             && c < |before| && HasMounts(before[c])
             && At(MountsOf(before[c]), t.destination) == []
    ensures Corrected(containers, targets + [t]) == Corrected(containers, targets)
  {
    SameNamed(containers, targets, t.container);
    var named := Named(containers, t.container);
    var c := named[0];
    CorrectedContainerKeeps(containers[c], targets);
    SameAt(containers[c], targets, t.destination);
    forall i | 0 <= i < |containers|
      ensures CorrectedContainer(containers[i], targets + [t]) == CorrectedContainer(containers[i], targets)
    {
      NamedExactly(containers, t.container);
      OtherContainer(containers[i], targets, t);
    }
  }

  /** A target with one mount sets the options of that mount and nothing else. */
  lemma StepMounts(container: Json, targets: seq<Target>, t: Target)
    requires DistinctFrom(targets, t) && NameIs(container, t.container) && HasMounts(container)
    requires |At(MountsOf(container), t.destination)| == 1
    ensures var m := At(MountsOf(container), t.destination)[0];
            var corrected := CorrectedMounts(container, targets);
            && m < |corrected| && corrected[m].Obj?
            && CorrectedMounts(container, targets + [t]) == corrected[m := SetOptions(corrected[m], t.propagation)]
  {
    var mounts := MountsOf(container);
    var found := At(mounts, t.destination);
    var m := found[0];
    AtExactly(mounts, t.destination);
    CorrectedMountKeeps(container, mounts[m], targets);
    var corrected := CorrectedMounts(container, targets);
    assert corrected[m] == mounts[m];
    assert (targets + [t])[..|targets|] == targets;
    forall i | 0 <= i < |mounts|
      ensures CorrectedMounts(container, targets + [t])[i]
              == corrected[m := SetOptions(mounts[m], t.propagation)][i]
    {
      if i != m {
        assert i !in found;
        OtherMount(container, mounts[i], targets, t);
      }
    }
  }

  lemma StepPresent(containers: seq<Json>, targets: seq<Target>, t: Target)
    requires DistinctFrom(targets, t)
    requires var before := Corrected(containers, targets);
             && |Named(before, t.container)| == 1
             && var c := Named(before, t.container)[0];
             && c < |before| && HasMounts(before[c])
             && |At(MountsOf(before[c]), t.destination)| == 1
    ensures var before := Corrected(containers, targets);
            var c := Named(before, t.container)[0];
            var m := At(MountsOf(before[c]), t.destination)[0];
            && m < |MountsOf(before[c])| && MountsOf(before[c])[m].Obj?
            && Corrected(containers, targets + [t])
               == before[c := WithMounts(before[c],
                                         MountsOf(before[c])[m := SetOptions(MountsOf(before[c])[m], t.propagation)])]
  {
    var before, after := Corrected(containers, targets), Corrected(containers, targets + [t]);
    SameNamed(containers, targets, t.container);
    var named := Named(containers, t.container);
    var c := named[0];
    NamedExactly(containers, t.container);
    var container := containers[c];
    CorrectedContainerKeeps(container, targets);
    SameAt(container, targets, t.destination);
    StepMounts(container, targets, t);
    WithMountsKeeps(container, CorrectedMounts(container, targets));
    forall i | 0 <= i < |containers| && i != c ensures after[i] == before[i] {
      assert i !in named;
      OtherContainer(containers[i], targets, t);
    }
  }

  /** One round of the loop, the verdict: it is the verdict on the original tree. */
  lemma NextVerdict(containers: seq<Json>, targets: seq<Target>, k: nat, e: Option<MountError>)
    requires k < |targets| && PairwiseDistinct(targets)
    requires FirstError(Guard(containers), targets[..k]).None?
    requires e == TargetError(Corrected(containers, targets[..k]), targets[k])
    ensures FirstError(Guard(containers), targets[..k + 1]) == e
    ensures e.Some? ==> FirstError(Guard(containers), targets) == e
  {
    var g := Guard(containers);
    assert e == g(targets[k]) by { NextGuard(containers, targets, k); }
    NextError(g, targets, k);
  }

  /** One round of the loop, the update: it gives the tree that the targets so far correct
      at once. */
  lemma NextTree(containers: seq<Json>, targets: seq<Target>, k: nat)
    requires k < |targets| && PairwiseDistinct(targets)
    requires TargetError(Corrected(containers, targets[..k]), targets[k]).None?
    ensures Corrected(containers, targets[..k + 1]) == Applied(Corrected(containers, targets[..k]), targets[k])
  {
    assert DistinctFrom(targets[..k], targets[k]) by { NextGuard(containers, targets, k); }
    StepApplied(containers, targets[..k], targets[k]);
    assert targets[..k + 1] == targets[..k] + [targets[k]];
  }

  lemma StepApplied(containers: seq<Json>, targets: seq<Target>, t: Target)
    requires DistinctFrom(targets, t) && TargetError(Corrected(containers, targets), t).None?
    ensures Corrected(containers, targets + [t]) == Applied(Corrected(containers, targets), t)
  {
    var before := Corrected(containers, targets);
    var c := Named(before, t.container)[0];
    if |At(MountsOf(before[c]), t.destination)| == 0 {
      StepAbsent(containers, targets, t);
    } else {
      StepPresent(containers, targets, t);
    }
  }

  /** The loop, one target after the other, each looking at the tree as it is by then. */
  method CorrectMounts(containers: seq<Json>, targets: seq<Target>) returns (r: Result<seq<Json>, MountError>)
    requires PairwiseDistinct(targets)
    ensures r == match FirstError(Guard(containers), targets)
                 case None => Ok(Corrected(containers, targets))
                 case Some(e) => Err(e)
  {
    CorrectedByNone(containers);
    var current := containers;
    ghost var done: seq<Target> := [];
    for k := 0 to |targets|
      invariant done == targets[..k]
      invariant current == Corrected(containers, done)
      invariant FirstError(Guard(containers), done).None?
    {
      var t := targets[k];
      NextVerdict(containers, targets, k, TargetError(current, t));
      if TargetError(current, t).None? {
        NextTree(containers, targets, k);
      }
      done := targets[..k + 1];
      var matching := Named(current, t.container);
      if |matching| != 1 {
        return Err(ContainerMissingOrDuplicated);
      }
      var c := matching[0];
      if !HasMounts(current[c]) {
        return Err(MissingMounts);
      }
      var mounts := MountsOf(current[c]);
      var found := At(mounts, t.destination);
      if |found| != 1 {
        if |found| == 0 && !t.required {
          continue;
        }
        return Err(MountMissingOrDuplicated);
      }
      var m := found[0];
      if !ShapeOk(mounts[m], t) {
        return Err(UnexpectedShape);
      }
      current := current[c := WithMounts(current[c], mounts[m := SetOptions(mounts[m], t.propagation)])];
    }
    assert done == targets;
    return Ok(current);
  }
}
