/** The whole text of a generated policy: Rego rules, a separator line and JSON policy data,
    whose platform mounts are corrected before signing (signing-service/src/genpolicy.rs,
    normalize_guest_memory_mount_propagation). */
module PolicyData {
  import opened Bytes
  import opened TextRewriting
  import opened MountCorrection

  const SEPARATOR := "\npolicy_data := "

  /** The source's JSON reader and pretty printer. */
  datatype JsonText = JsonText(parse: string -> Option<Json>, show: Json -> string)

  /** What is needed of them for a tree that is printed: the text reads back, and has no
      separator in it (strings are printed with their line breaks escaped, so no printed line
      starts with the separator's word). */
  ghost predicate ReadsBack(codec: JsonText, data: Json) {
    codec.parse(codec.show(data)) == Some(data) && !Contains(codec.show(data), SEPARATOR)
  }

  /** `rsplit_once`: the text before and after the last occurrence. */
  function RSplitOnce(text: string, separator: string): (r: Option<(string, string)>)
    ensures r.Some? ==> text == r.value.0 + separator + r.value.1
  {
    if |text| < |separator| then None
    else if text[|text| - |separator|..] == separator then Some((text[..|text| - |separator|], []))
    else
      var r := RSplitOnce(text[..|text| - 1], separator);
      if text == [] || r.None? then None else Some((r.value.0, r.value.1 + [text[|text| - 1]]))
  }

  /** The tree behind the last separator. */
  function DataOf(codec: JsonText, text: string): Option<Json> {
    var parts := RSplitOnce(text, SEPARATOR);
    if parts.Some? then codec.parse(parts.value.1) else None
  }

  function ContainersOf(data: Json): Option<seq<Json>> {
    var containers := Field(data, "containers");
    if containers.Some? && containers.value.Arr? then Some(containers.value.items) else None
  }

  function WithContainers(data: Json, containers: seq<Json>): Json
    requires data.Obj?
  {
    Obj(data.fields["containers" := Arr(containers)])
  }

  function CorrectedData(data: Json): Json
    requires ContainersOf(data).Some?
  {
    WithContainers(data, Corrected(ContainersOf(data).value, TARGETS))
  }

  /** The one-shot form: every target judged on the parsed tree, every mount mapped once. */
  function Normalized(codec: JsonText, text: string): Result<string, MountError> {
    var parts := RSplitOnce(text, SEPARATOR);
    if parts.None? then Err(MissingPolicyData)
    else
      var data := codec.parse(parts.value.1);
      if data.None? then Err(InvalidPolicyData)
      else
        var containers := ContainersOf(data.value);
        if containers.None? then Err(MissingContainers)
        else
          var refused := FirstError(Guard(containers.value), TARGETS);
          if refused.Some? then Err(refused.value)
          else
            Ok(parts.value.0 + SEPARATOR + codec.show(CorrectedData(data.value)))
  }

  method Normalize(codec: JsonText, text: string) returns (r: Result<string, MountError>)
    ensures r == Normalized(codec, text)
  {
    var parts := RSplitOnce(text, SEPARATOR);
    if parts.None? {
      return Err(MissingPolicyData);
    }
    var data := codec.parse(parts.value.1);
    if data.None? {
      return Err(InvalidPolicyData);
    }
    var containers := ContainersOf(data.value);
    if containers.None? {
      return Err(MissingContainers);
    }
    TargetsDistinct();
    var corrected := CorrectMounts(containers.value, TARGETS);
    if corrected.Err? {
      return Err(corrected.error);
    }
    return Ok(parts.value.0 + SEPARATOR + codec.show(WithContainers(data.value, corrected.value)));
  }

  /** The tree that a successful correction prints can be read back. */
  ghost predicate OutputReadsBack(codec: JsonText, text: string) {
    && Normalized(codec, text).Ok?
    && ReadsBack(codec, CorrectedData(DataOf(codec, text).value))
  }

  // ------------------------------------------------------------------ splitting

  lemma OccursInShorter(text: string, separator: string, i: nat)
    requires 0 < |separator| <= |text| && !EndsWith(text, separator)
    ensures OccursAt(text, separator, i) <==> OccursAt(text[..|text| - 1], separator, i)
  {
    var end := i + |separator|;
    if end < |text| {
      assert text[i..end] == text[..|text| - 1][i..end];
    } else if end == |text| {
      assert text[i..end] == text[|text| - |separator|..];
    }
  }

  /** Nothing is found only when there is nothing, and what is found comes last. */
  lemma {:induction false} SplitIsLast(text: string, separator: string)
    requires separator != []
    ensures RSplitOnce(text, separator).None? <==> !Contains(text, separator)
    ensures RSplitOnce(text, separator).Some? ==>
              forall i :: |RSplitOnce(text, separator).value.0| < i ==> !OccursAt(text, separator, i)
  {
    if |text| < |separator| {
    } else if EndsWith(text, separator) {
      assert OccursAt(text, separator, |text| - |separator|);
    } else {
      var shorter := text[..|text| - 1];
      SplitIsLast(shorter, separator);
      forall i: nat ensures OccursAt(text, separator, i) <==> OccursAt(shorter, separator, i) {
        OccursInShorter(text, separator, i);
      }
    }
  }

  lemma SeparatorNotLast(rules: string, separator: string, tail: string)
    requires separator != [] && separator[0] !in separator[1..] && tail != [] && !EndsWith(tail, separator)
    ensures !EndsWith(rules + separator + tail, separator)
  {
    var text := rules + separator + tail;
    var at := |text| - |separator|;
    if |tail| < |separator| {
      assert text[at] == separator[1..][|tail| - 1];
      assert text[at..][0] == text[at];
    } else {
      assert text[at..] == tail[|tail| - |separator|..];
    }
  }

  /** A separator whose first character comes only once: what was joined is split again, when
      the tail does not contain the separator. */
  lemma {:induction false} SplitBack(rules: string, separator: string, tail: string)
    requires separator != [] && separator[0] !in separator[1..] && !Contains(tail, separator)
    ensures RSplitOnce(rules + separator + tail, separator) == Some((rules, tail))
  {
    var text := rules + separator + tail;
    if tail == [] {
      assert text == rules + separator;
    } else {
      var n := |tail| - 1;
      assert EndsWith(tail, separator) ==> OccursAt(tail, separator, |tail| - |separator|);
      SeparatorNotLast(rules, separator, tail);
      assert !Contains(tail[..n], separator) by {
        assert !EndsWith(tail, separator);
        NoneInShorter(tail, separator);
      }
      SplitBack(rules, separator, tail[..n]);
      assert text[..|text| - 1] == rules + separator + tail[..n];
      assert tail == tail[..n] + [tail[n]];
    }
  }

  lemma NoneInShorter(text: string, separator: string)
    requires text != [] && separator != [] && !Contains(text, separator)
    ensures !Contains(text[..|text| - 1], separator)
  {
    var shorter := text[..|text| - 1];
    assert [] + shorter + [text[|text| - 1]] == text;
    if Contains(shorter, separator) {
      ContainsInside([], shorter, [text[|text| - 1]], separator);
    }
  }

  lemma Reread(codec: JsonText, rules: string, data: Json)
    requires ReadsBack(codec, data)
    ensures RSplitOnce(rules + SEPARATOR + codec.show(data), SEPARATOR) == Some((rules, codec.show(data)))
    ensures DataOf(codec, rules + SEPARATOR + codec.show(data)) == Some(data)
  {
    assert SEPARATOR[0] == '\n' && '\n' !in SEPARATOR[1..];
    SplitBack(rules, SEPARATOR, codec.show(data));
  }

  // --------------------------------------------------------------- what changes

  lemma {:induction false} FirstErrorNone(guard: Target -> Option<MountError>, targets: seq<Target>)
    ensures FirstError(guard, targets).None? <==> forall t :: t in targets ==> guard(t).None?
  {
    if targets == [] {
    } else {
      FirstErrorNone(guard, targets[1..]);
      assert forall t :: t in targets <==> t == targets[0] || t in targets[1..];
    }
  }

  /** The guard of one target on the original tree: its container is unique and has mounts, and
      its mount is unique and of the expected shape, or is optional and absent. */
  ghost predicate TargetMet(containers: seq<Json>, t: Target) {
    exists c: nat ::
      && c < |containers| && NameIs(containers[c], t.container)
      && (forall d: nat :: d < |containers| && NameIs(containers[d], t.container) ==> d == c)
      && HasMounts(containers[c]) && MountMet(MountsOf(containers[c]), t)
  }

  function Bind(propagation: string): Json {
    Arr([Str("rbind"), Str(propagation), Str("rw")])
  }

  /** What the generator writes for a platform mount: the volume's source, a bind mount, private propagation. */
  ghost predicate AsGenerated(m: Json, volume: string) {
    && Field(m, "source") == Some(Str("^/run/kata-containers/sandbox/ephemeral/" + volume + "$"))
    && Field(m, "type_") == Some(Str("bind"))
    && Field(m, "options") == Some(Bind("rprivate"))
  }

  ghost predicate MountMet(mounts: seq<Json>, t: Target) {
    || (!t.required && forall m :: m in mounts ==> !DestinationIs(m, t.destination))
    || (exists k: nat ::
          && k < |mounts| && DestinationIs(mounts[k], t.destination) && AsGenerated(mounts[k], t.volume)
          && forall l: nat :: l < |mounts| && DestinationIs(mounts[l], t.destination) ==> l == k)
  }

  lemma OnePosition<T>(xs: seq<T>, p: T -> bool)
    ensures |Positions(xs, p)| == 0 <==> forall x :: x in xs ==> !p(x)
    ensures |Positions(xs, p)| == 1 <==>
            exists k: nat :: k < |xs| && p(xs[k]) && forall l: nat :: l < |xs| && p(xs[l]) ==> l == k
    ensures |Positions(xs, p)| == 1 ==>
            var k := Positions(xs, p)[0]; k < |xs| && p(xs[k]) && forall l: nat :: l < |xs| && p(xs[l]) ==> l == k
  {
    var r := Positions(xs, p);
    PositionsExactly(xs, p);
    if |r| == 1 {
      assert forall l: nat :: l in r ==> l == r[0];
    }
    assert |r| > 1 ==> r[0] in r && r[1] in r && r[0] < r[1];
    if k: nat :| k < |xs| && p(xs[k]) && forall l: nat :: l < |xs| && p(xs[l]) ==> l == k {
      assert k in r;
    }
    if |r| == 0 {
      forall x | x in xs ensures !p(x) {
        var i :| 0 <= i < |xs| && xs[i] == x;
        assert i !in r;
      }
    }
  }

  lemma GuardMeans(containers: seq<Json>, t: Target)
    ensures TargetError(containers, t).None? <==> TargetMet(containers, t)
  {
    OnePosition(containers, c => NameIs(c, t.container));
    var named := Named(containers, t.container);
    if |named| == 1 {
      var c := containers[named[0]];
      if HasMounts(c) {
        MountGuardMeans(c, t);
      }
    }
  }

  lemma MountGuardMeans(c: Json, t: Target)
    requires HasMounts(c)
    ensures var found := At(MountsOf(c), t.destination);
            MountMet(MountsOf(c), t) <==>
            (found == [] && !t.required)
            || (|found| == 1 && found[0] < |MountsOf(c)| && ShapeOk(MountsOf(c)[found[0]], t))
  {
    OnePosition(MountsOf(c), m => DestinationIs(m, t.destination));
  }

  /** The loop succeeds exactly when the text splits into rules and a tree with containers, and
      every target is met on that tree as it was read. */
  lemma AcceptedExactly(codec: JsonText, text: string)
    ensures RSplitOnce(text, SEPARATOR).Some? <==> Contains(text, SEPARATOR)
    ensures Normalized(codec, text).Ok? <==>
            && DataOf(codec, text).Some? && ContainersOf(DataOf(codec, text).value).Some?
            && forall t :: t in TARGETS ==> TargetMet(ContainersOf(DataOf(codec, text).value).value, t)
  {
    SplitIsLast(text, SEPARATOR);
    var data := DataOf(codec, text);
    if data.Some? && ContainersOf(data.value).Some? {
      GuardsMean(ContainersOf(data.value).value);
    }
  }

  lemma GuardsMean(containers: seq<Json>)
    ensures FirstError(Guard(containers), TARGETS).None? <==> forall t :: t in TARGETS ==> TargetMet(containers, t)
  {
    FirstErrorNone(Guard(containers), TARGETS);
    forall t ensures Guard(containers)(t).None? <==> TargetMet(containers, t) {
      GuardMeans(containers, t);
    }
  }

  ghost predicate Names(t: Target, c: Json, m: Json) {
    NameIs(c, t.container) && DestinationIs(m, t.destination)
  }

  lemma LastOrBefore(targets: seq<Target>)
    requires targets != []
    ensures var n := |targets| - 1; forall t :: t in targets <==> t in targets[..n] || t == targets[n]
  {
    assert targets == targets[..|targets| - 1] + [targets[|targets| - 1]];
  }

  lemma OthersNameNot(c: Json, m: Json, targets: seq<Target>, n: nat)
    requires PairwiseDistinct(targets) && n < |targets| && Names(targets[n], c, m)
    ensures forall t :: t in targets[..n] ==> !Names(t, c, m)
  {
  }

  /** Which mount gets which options: the target that names it decides, and there is at most one. */
  lemma {:induction false} CorrectedMountIs(c: Json, m: Json, targets: seq<Target>)
    requires PairwiseDistinct(targets)
    ensures (forall t :: t in targets ==> !Names(t, c, m)) ==> CorrectedMount(c, m, targets) == m
    ensures forall t :: t in targets && Names(t, c, m) ==>
              CorrectedMount(c, m, targets) == SetOptions(m, t.propagation)
  {
    if targets == [] {
    } else {
      var n := |targets| - 1;
      CorrectedMountIs(c, m, targets[..n]);
      LastOrBefore(targets);
      if Names(targets[n], c, m) {
        OthersNameNot(c, m, targets, n);
      }
    }
  }

  /** Everything but the options of the named mounts is left as it was: the number and order of
      containers and of mounts, every other field of a container, every other field of a mount,
      and every mount that no target names. */
  lemma OnlyNamedOptionsChange(containers: seq<Json>, i: nat, j: nat)
    requires i < |containers| && HasMounts(containers[i]) && j < |MountsOf(containers[i])|
    ensures |Corrected(containers, TARGETS)| == |containers|
    ensures var c, after := containers[i], Corrected(containers, TARGETS)[i];
            && HasMounts(after) && |MountsOf(after)| == |MountsOf(c)|
            && WithMounts(after, MountsOf(c)) == c
            && var m, n := MountsOf(c)[j], MountsOf(after)[j];
               && ((forall t :: t in TARGETS ==> !Names(t, c, m)) ==> n == m)
               && (forall t :: t in TARGETS && Names(t, c, m) ==>
                     && n == SetOptions(m, t.propagation)
                     && Field(n, "options") == Some(Options(t.propagation))
                     && forall key :: key != "options" ==> Field(n, key) == Field(m, key))
  {
    var c := containers[i];
    TargetsDistinct();
    CorrectedContainerKeeps(c, TARGETS);
    WithMountsKeeps(c, CorrectedMounts(c, TARGETS));
    CorrectedMountIs(c, MountsOf(c)[j], TARGETS);
  }

  /** A container without a mount list, or that no target names, is left as it was. */
  lemma OtherContainersKept(containers: seq<Json>, i: nat)
    requires i < |containers|
    requires !HasMounts(containers[i]) || forall t :: t in TARGETS ==> !NameIs(containers[i], t.container)
    ensures Corrected(containers, TARGETS)[i] == containers[i]
  {
    var c := containers[i];
    if HasMounts(c) {
      TargetsDistinct();
      forall j | 0 <= j < |MountsOf(c)| ensures CorrectedMount(c, MountsOf(c)[j], TARGETS) == MountsOf(c)[j] {
        CorrectedMountIs(c, MountsOf(c)[j], TARGETS);
      }
      assert CorrectedMounts(c, TARGETS) == MountsOf(c);
      WithMountsKeeps(c, MountsOf(c));
    }
  }

  // ------------------------------------------------------------------- undoing

  /** The targets with the propagation that the generator had written. */
  function Undo(targets: seq<Target>): seq<Target> {
    seq(|targets|, i requires 0 <= i < |targets| => targets[i].(propagation := "rprivate"))
  }

  lemma UndoNames(c: Json, after: Json, m: Json, n: Json, targets: seq<Target>)
    requires forall name :: NameIs(after, name) <==> NameIs(c, name)
    requires forall d :: DestinationIs(n, d) <==> DestinationIs(m, d)
    ensures forall t :: t in targets && Names(t, c, m) ==>
              t.(propagation := "rprivate") in Undo(targets) && Names(t.(propagation := "rprivate"), after, n)
    ensures forall u :: u in Undo(targets) && Names(u, after, n) ==> exists t :: t in targets && Names(t, c, m)
  {
    UndoMembers(targets);
    forall u | u in Undo(targets) && Names(u, after, n) ensures exists t :: t in targets && Names(t, c, m) {
      var t :| t in targets && u == t.(propagation := "rprivate");
      assert Names(t, c, m);
    }
  }

  lemma UndoMembers(targets: seq<Target>)
    ensures forall t :: t in targets ==> t.(propagation := "rprivate") in Undo(targets)
    ensures forall u :: u in Undo(targets) ==> exists t :: t in targets && u == t.(propagation := "rprivate")
  {
    forall t | t in targets ensures t.(propagation := "rprivate") in Undo(targets) {
      var i :| 0 <= i < |targets| && targets[i] == t;
      assert Undo(targets)[i] == t.(propagation := "rprivate");
    }
  }

  lemma UndoDistinct(targets: seq<Target>)
    requires PairwiseDistinct(targets)
    ensures PairwiseDistinct(Undo(targets))
  {
  }

  lemma CorrectedDestination(c: Json, m: Json, targets: seq<Target>)
    ensures forall d :: DestinationIs(CorrectedMount(c, m, targets), d) <==> DestinationIs(m, d)
  {
    CorrectedMountKeeps(c, m, targets);
  }

  lemma NamedMountIs(c: Json, m: Json, targets: seq<Target>, t: Target)
    requires PairwiseDistinct(targets) && t in targets && Names(t, c, m)
    ensures CorrectedMount(c, m, targets) == SetOptions(m, t.propagation)
  {
    CorrectedMountIs(c, m, targets);
  }

  lemma OptionsBack(m: Json, propagation: string)
    requires m.Obj? && Field(m, "options") == Some(Options("rprivate"))
    ensures SetOptions(SetOptions(m, propagation), "rprivate") == m
  {
    assert m.fields["options" := Options(propagation)]["options" := Options("rprivate")] == m.fields;
  }

  lemma MountRestored(c: Json, after: Json, m: Json, targets: seq<Target>)
    requires PairwiseDistinct(targets)
    requires forall name :: NameIs(after, name) <==> NameIs(c, name)
    requires forall t :: t in targets && Names(t, c, m) ==> ShapeOk(m, t)
    ensures CorrectedMount(after, CorrectedMount(c, m, targets), Undo(targets)) == m
  {
    var n := CorrectedMount(c, m, targets);
    CorrectedDestination(c, m, targets);
    UndoNames(c, after, m, n, targets);
    UndoDistinct(targets);
    if t :| t in targets && Names(t, c, m) {
      NamedMountIs(c, m, targets, t);
      NamedMountIs(after, n, Undo(targets), t.(propagation := "rprivate"));
      OptionsBack(m, t.propagation);
    } else {
      UnnamedMountIs(c, m, targets);
      UnnamedMountIs(after, n, Undo(targets));
    }
  }

  lemma UnnamedMountIs(c: Json, m: Json, targets: seq<Target>)
    requires PairwiseDistinct(targets) && forall t :: t in targets ==> !Names(t, c, m)
    ensures CorrectedMount(c, m, targets) == m
  {
    CorrectedMountIs(c, m, targets);
  }

  /** A mount that a met target names has the shape that the target asks for. */
  lemma NamedMountsShaped(containers: seq<Json>, t: Target, i: nat, j: nat)
    requires TargetMet(containers, t)
    requires i < |containers| && HasMounts(containers[i]) && j < |MountsOf(containers[i])|
    requires Names(t, containers[i], MountsOf(containers[i])[j])
    ensures ShapeOk(MountsOf(containers[i])[j], t)
  {
  }

  /** Nothing is lost: writing the generator's options back gives the original tree. */
  lemma TreeRestored(containers: seq<Json>)
    requires forall t :: t in TARGETS ==> TargetMet(containers, t)
    ensures Corrected(Corrected(containers, TARGETS), Undo(TARGETS)) == containers
  {
    var after := Corrected(containers, TARGETS);
    var undo := Undo(TARGETS);
    TargetsDistinct();
    forall i | 0 <= i < |containers| ensures CorrectedContainer(after[i], undo) == containers[i] {
      var c := containers[i];
      CorrectedContainerKeeps(c, TARGETS);
      if HasMounts(c) {
        var mounts := MountsOf(c);
        forall j | 0 <= j < |mounts|
          ensures CorrectedMount(after[i], CorrectedMount(c, mounts[j], TARGETS), undo) == mounts[j]
        {
          forall t | t in TARGETS && Names(t, c, mounts[j]) ensures ShapeOk(mounts[j], t) {
            NamedMountsShaped(containers, t, i, j);
          }
          MountRestored(c, after[i], mounts[j], TARGETS);
        }
        assert CorrectedMounts(after[i], undo) == mounts;
        WithMountsKeeps(c, CorrectedMounts(c, TARGETS));
        WithMountsKeeps(c, mounts);
      }
    }
  }

  lemma DataRestored(data: Json, containers: seq<Json>)
    requires ContainersOf(data) == Some(containers)
    requires forall t :: t in TARGETS ==> TargetMet(containers, t)
    ensures var after := WithContainers(data, Corrected(containers, TARGETS));
            && ContainersOf(after) == Some(Corrected(containers, TARGETS))
            && WithContainers(after, Corrected(Corrected(containers, TARGETS), Undo(TARGETS))) == data
  {
    TreeRestored(containers);
    var corrected := Arr(Corrected(containers, TARGETS));
    assert data.fields["containers" := corrected]["containers" := Arr(containers)] == data.fields;
  }

  /** Two generated texts with one corrected text have the same rules and the same data. */
  lemma CorrectionInjective(codec: JsonText, text: string, other: string)
    requires OutputReadsBack(codec, text) && OutputReadsBack(codec, other)
    requires Normalized(codec, text) == Normalized(codec, other)
    ensures RSplitOnce(text, SEPARATOR).value.0 == RSplitOnce(other, SEPARATOR).value.0
    ensures DataOf(codec, text) == DataOf(codec, other)
  {
    OutputRestored(codec, text);
    OutputRestored(codec, other);
  }

  /** The data that a corrected text holds. */
  lemma OutputData(codec: JsonText, text: string)
    requires OutputReadsBack(codec, text)
    ensures RSplitOnce(text, SEPARATOR).Some? && DataOf(codec, text).Some?
    ensures var data := DataOf(codec, text).value;
            && ContainersOf(data).Some?
            && FirstError(Guard(ContainersOf(data).value), TARGETS).None?
            && var output := Normalized(codec, text).value;
               && DataOf(codec, output) == Some(CorrectedData(data))
               && RSplitOnce(output, SEPARATOR).Some?
               && RSplitOnce(output, SEPARATOR).value.0 == RSplitOnce(text, SEPARATOR).value.0
  {
    var data := DataOf(codec, text).value;
    Reread(codec, RSplitOnce(text, SEPARATOR).value.0, CorrectedData(data));
  }

  /** The rules are kept, and the original data can be computed from the corrected text. */
  lemma OutputRestored(codec: JsonText, text: string)
    requires OutputReadsBack(codec, text)
    ensures RSplitOnce(text, SEPARATOR).Some?
    ensures var output := Normalized(codec, text).value;
            && RSplitOnce(output, SEPARATOR).Some?
            && RSplitOnce(output, SEPARATOR).value.0 == RSplitOnce(text, SEPARATOR).value.0
            && DataOf(codec, output).Some? && ContainersOf(DataOf(codec, output).value).Some?
            && var after := DataOf(codec, output).value;
               DataOf(codec, text) == Some(WithContainers(after, Corrected(ContainersOf(after).value, Undo(TARGETS))))
  {
    OutputData(codec, text);
    AcceptedExactly(codec, text);
    var data := DataOf(codec, text).value;
    DataRestored(data, ContainersOf(data).value);
  }

  /** Correcting a corrected text is always refused: the first target is required, and its
      mount no longer has the shape that the generator writes. */
  lemma NeverTwice(codec: JsonText, text: string)
    requires OutputReadsBack(codec, text)
    ensures Normalized(codec, Normalized(codec, text).value) == Err(UnexpectedShape)
  {
    var output := Normalized(codec, text).value;
    CorrectedContainers(codec, text, output);
    RefusedByGuard(codec, output, UnexpectedShape);
  }

  lemma CorrectedContainers(codec: JsonText, text: string, output: string)
    requires OutputReadsBack(codec, text) && Normalized(codec, text) == Ok(output)
    ensures DataOf(codec, output).Some? && ContainersOf(DataOf(codec, output).value).Some?
    ensures FirstError(Guard(ContainersOf(DataOf(codec, output).value).value), TARGETS) == Some(UnexpectedShape)
  {
    OutputData(codec, text);
    var data := DataOf(codec, text).value;
    RefusedData(data, CorrectedData(data));
  }

  lemma RefusedData(data: Json, after: Json)
    requires ContainersOf(data).Some?
    requires FirstError(Guard(ContainersOf(data).value), TARGETS).None?
    requires after == CorrectedData(data)
    ensures ContainersOf(after).Some?
    ensures FirstError(Guard(ContainersOf(after).value), TARGETS) == Some(UnexpectedShape)
  {
    RefusedAfterwards(ContainersOf(data).value);
  }

  lemma RefusedByGuard(codec: JsonText, text: string, e: MountError)
    requires DataOf(codec, text).Some? && ContainersOf(DataOf(codec, text).value).Some?
    requires FirstError(Guard(ContainersOf(DataOf(codec, text).value).value), TARGETS) == Some(e)
    ensures Normalized(codec, text) == Err(e)
  {
  }

  lemma RefusedAfterwards(containers: seq<Json>)
    requires FirstError(Guard(containers), TARGETS).None?
    ensures FirstError(Guard(Corrected(containers, TARGETS)), TARGETS) == Some(UnexpectedShape)
  {
    var t := TARGETS[0];
    FirstErrorNone(Guard(containers), TARGETS);
    TargetsDistinct();
    assert t in TARGETS;
    assert Guard(containers)(t).None?;
    RefusedAgain(containers, t);
  }

  lemma RefusedAgain(containers: seq<Json>, t: Target)
    requires t in TARGETS && t.required && TargetError(containers, t).None?
    ensures TargetError(Corrected(containers, TARGETS), t) == Some(UnexpectedShape)
  {
    SameNamed(containers, TARGETS, t.container);
    var c := Named(containers, t.container)[0];
    NamedExactly(containers, t.container);
    CorrectedContainerKeeps(containers[c], TARGETS);
    SameAt(containers[c], TARGETS, t.destination);
    var m := At(MountsOf(containers[c]), t.destination)[0];
    AtExactly(MountsOf(containers[c]), t.destination);
    TargetsDistinct();
    CorrectedMountIs(containers[c], MountsOf(containers[c])[m], TARGETS);
    assert Names(t, containers[c], MountsOf(containers[c])[m]);
    CorrectedOptions(t);
  }

  lemma CorrectedOptions(t: Target)
    requires t in TARGETS
    ensures Options(t.propagation) != Options("rprivate")
  {
    assert |"rprivate"| == 8 && |t.propagation| < 8;
    assert Options(t.propagation).items[1] == Str(t.propagation);
    assert Options("rprivate").items[1] == Str("rprivate");
  }

  // ------------------------------------------------------------------- in literal terms

  /** Which container and which mount, by the paths that are looked at. */
  ghost predicate MountAt(c: Json, container: string, m: Json, destination: string) {
    && Inside(Inside(Field(c, "OCI"), "Annotations"), "io.kubernetes.cri.container-name") == Some(Str(container))
    && Field(m, "destination") == Some(Str(destination))
  }

  ghost predicate SlaveMount(c: Json, m: Json) {
    || MountAt(c, "web", m, "/state") || MountAt(c, "web", m, "/run/enclava-logs")
    || MountAt(c, "attestation-proxy", m, "/data") || MountAt(c, "attestation-proxy", m, "/state")
  }

  ghost predicate SharedMount(c: Json, m: Json) {
    || MountAt(c, "enclava-init", m, "/state") || MountAt(c, "enclava-init", m, "/state/tls-state")
    || MountAt(c, "enclava-init", m, "/run/enclava-logs")
  }

  lemma TargetsAre()
    ensures |TARGETS| == 7
    ensures TARGETS[0] == Target("web", "state-mount", "/state", "rslave", true)
    ensures TARGETS[1] == Target("web", "logs", "/run/enclava-logs", "rslave", false)
    ensures TARGETS[2] == Target("attestation-proxy", "state-mount", "/data", "rslave", true)
    ensures TARGETS[3] == Target("attestation-proxy", "state-mount", "/state", "rslave", true)
    ensures TARGETS[4] == Target("enclava-init", "state-mount", "/state", "rshared", true)
    ensures TARGETS[5] == Target("enclava-init", "tls-state-mount", "/state/tls-state", "rshared", true)
    ensures TARGETS[6] == Target("enclava-init", "logs", "/run/enclava-logs", "rshared", false)
  {
  }

  lemma NamesMean(t: Target, c: Json, m: Json)
    ensures Names(t, c, m) <==> MountAt(c, t.container, m, t.destination)
  {
  }

  lemma TargetSplit(t: Target)
    ensures t in TARGETS <==> t in TARGETS[..4] || t in TARGETS[4..]
    ensures t in TARGETS[..4] ==> t.propagation == "rslave"
    ensures t in TARGETS[4..] ==> t.propagation == "rshared"
  {
    assert TARGETS == TARGETS[..4] + TARGETS[4..];
  }

  lemma SlaveTargets(c: Json, m: Json)
    ensures SlaveMount(c, m) <==> exists t :: t in TARGETS[..4] && Names(t, c, m)
  {
    TargetsAre();
    var s := TARGETS[..4];
    forall k | 0 <= k < 4
      ensures s[k] in s && (Names(s[k], c, m) <==> MountAt(c, s[k].container, m, s[k].destination))
    {
      NamesMean(s[k], c, m);
    }
    assert s[0] in s && s[1] in s && s[2] in s && s[3] in s;
    assert forall t :: t in s ==> t == s[0] || t == s[1] || t == s[2] || t == s[3];
  }

  lemma SharedTargets(c: Json, m: Json)
    ensures SharedMount(c, m) <==> exists t :: t in TARGETS[4..] && Names(t, c, m)
  {
    TargetsAre();
    var s := TARGETS[4..];
    forall k | 0 <= k < 3
      ensures s[k] in s && (Names(s[k], c, m) <==> MountAt(c, s[k].container, m, s[k].destination))
    {
      NamesMean(s[k], c, m);
    }
    assert s[0] in s && s[1] in s && s[2] in s;
    assert forall t :: t in s ==> t == s[0] || t == s[1] || t == s[2];
  }

  /** The seven mounts by name: four get slave propagation and three shared propagation, with `rbind`
      before and `rw` behind; every other mount is kept as it is, and so are the other fields. */
  lemma MountsAfterwards(containers: seq<Json>, i: nat, j: nat)
    requires i < |containers| && HasMounts(containers[i]) && j < |MountsOf(containers[i])|
    ensures HasMounts(Corrected(containers, TARGETS)[i])
    ensures |MountsOf(Corrected(containers, TARGETS)[i])| == |MountsOf(containers[i])|
    ensures var c := containers[i];
            var m, n := MountsOf(c)[j], MountsOf(Corrected(containers, TARGETS)[i])[j];
            && (SlaveMount(c, m) ==> Field(n, "options") == Some(Bind("rslave")))
            && (SharedMount(c, m) ==> Field(n, "options") == Some(Bind("rshared")))
            && (forall key :: key != "options" ==> Field(n, key) == Field(m, key))
            && (!SlaveMount(c, m) && !SharedMount(c, m) ==> n == m)
  {
    var c := containers[i];
    var m := MountsOf(c)[j];
    OnlyNamedOptionsChange(containers, i, j);
    SlaveTargets(c, m);
    SharedTargets(c, m);
    forall t ensures t in TARGETS <==> t in TARGETS[..4] || t in TARGETS[4..] {
      TargetSplit(t);
    }
    if t :| t in TARGETS[..4] && Names(t, c, m) {
      TargetSplit(t);
    }
    if t :| t in TARGETS[4..] && Names(t, c, m) {
      TargetSplit(t);
    }
  }

  /** The errors, each with its own cause; the guard's own errors come only with a readable tree. */
  lemma RefusedExactly(codec: JsonText, text: string)
    ensures var r := Normalized(codec, text);
            && (r == Err(MissingPolicyData) <==> !Contains(text, "\npolicy_data := "))
            && (r == Err(InvalidPolicyData) <==> Contains(text, "\npolicy_data := ") && DataOf(codec, text).None?)
            && (r == Err(MissingContainers) <==>
                  DataOf(codec, text).Some? && ContainersOf(DataOf(codec, text).value).None?)
  {
    SplitIsLast(text, SEPARATOR);
    if DataOf(codec, text).Some? && ContainersOf(DataOf(codec, text).value).Some? {
      GuardErrors(ContainersOf(DataOf(codec, text).value).value, TARGETS);
    }
  }

  lemma {:induction false} GuardErrors(containers: seq<Json>, targets: seq<Target>)
    ensures FirstError(Guard(containers), targets)
            !in {Some(MissingPolicyData), Some(InvalidPolicyData), Some(MissingContainers)}
  {
    if targets == [] {
    } else {
      GuardErrors(containers, targets[1..]);
    }
  }
}
