/** Resource lists: the duplicate check (signing-service/src/descriptor.rs) and the two
    ways a name is looked up later, first match for the workload shape and last-wins in
    the rendered manifest (signing-service/src/genpolicy.rs). */
module ResourceNames {
  import opened Bytes
  import opened StableSort
  import opened Descriptor

  predicate UniqueNames(entries: seq<EnvVar>) {
    forall i, j :: 0 <= i < j < |entries| ==> entries[i].name != entries[j].name
  }

  /** The name is the first one that repeats an earlier name. */
  ghost predicate FirstRepeated(entries: seq<EnvVar>, name: bytes) {
    exists i, j :: && 0 <= i < j < |entries| && UniqueNames(entries[..j])
                   && entries[i].name == entries[j].name == name
  }

  /** Scans with a set of the names seen so far; returns the first repeated name. */
  method FirstDuplicate(entries: seq<EnvVar>) returns (duplicate: Option<bytes>)
    ensures duplicate.None? <==> UniqueNames(entries)
    ensures duplicate.Some? ==> FirstRepeated(entries, duplicate.value)
  {
    var seen: set<bytes> := {};
    for i := 0 to |entries|
      invariant UniqueNames(entries[..i])
      invariant forall name :: name in seen <==> exists k :: 0 <= k < i && entries[k].name == name
    {
      if entries[i].name in seen {
        return Some(entries[i].name);
      }
      seen := seen + {entries[i].name};
    }
    assert entries[..|entries|] == entries;
    return None;
  }

  datatype ListName = Requests | Limits

  predicate UniqueResources(d: DeploymentDescriptor) {
    && UniqueNames(d.ociRuntimeSpec.resources.requests)
    && UniqueNames(d.ociRuntimeSpec.resources.limits)
  }

  /** Rejects a descriptor whose requests, or else limits, repeat a resource name, and reports the
      list and the first repeated name. */
  method ValidateUniqueResourceNames(d: DeploymentDescriptor)
    returns (r: Result<(), (ListName, bytes)>)
    ensures r.Ok? <==> UniqueResources(d)
    ensures r.Err? ==>
              (r.error.0 == Requests <==> !UniqueNames(d.ociRuntimeSpec.resources.requests))
    ensures r.Err? ==>
              var resources := d.ociRuntimeSpec.resources;
              FirstRepeated(if r.error.0 == Requests then resources.requests else resources.limits, r.error.1)
  {
    var resources := d.ociRuntimeSpec.resources;
    var duplicate := FirstDuplicate(resources.requests);
    if duplicate.Some? {
      return Err((Requests, duplicate.value));
    }
    duplicate := FirstDuplicate(resources.limits);
    if duplicate.Some? {
      return Err((Limits, duplicate.value));
    }
    return Ok(());
  }

  /** `find` on the list: the first value with the name. */
  function FirstValue(entries: seq<EnvVar>, name: bytes): Option<bytes> {
    if entries == [] then None
    else if entries[0].name == name then Some(entries[0].value)
    else FirstValue(entries[1..], name)
  }

  /** The map that results from inserting entries one after the other. */
  function InsertAll(entries: seq<EnvVar>): map<bytes, bytes> {
    if entries == [] then map[]
    else InsertAll(entries[..|entries| - 1])[entries[|entries| - 1].name := entries[|entries| - 1].value]
  }

  /** The manifest's resource map: entries are sorted by name, then inserted in order. */
  function RenderedMap(entries: seq<EnvVar>): map<bytes, bytes> {
    InsertAll(Sort(entries, EnvName))
  }

  function Lookup(m: map<bytes, bytes>, name: bytes): Option<bytes> {
    if name in m then Some(m[name]) else None
  }

  function HeadValue(g: seq<EnvVar>): Option<bytes> {
    if g == [] then None else Some(g[0].value)
  }

  function LastValue(g: seq<EnvVar>): Option<bytes> {
    if g == [] then None else Some(g[|g| - 1].value)
  }

  /** First match reads the head of the name's group. */
  lemma {:induction false} FirstIsHead(entries: seq<EnvVar>, name: bytes)
    ensures FirstValue(entries, name) == HeadValue(Group(entries, EnvName, name))
  {
    if entries == [] {
    } else {
      FirstIsHead(entries[1..], name);
    }
  }

  lemma {:induction false} InsertAllIsLast(entries: seq<EnvVar>, name: bytes)
    ensures Lookup(InsertAll(entries), name) == LastValue(Group(entries, EnvName, name))
  {
    if entries == [] {
    } else {
      var n := |entries| - 1;
      InsertAllIsLast(entries[..n], name);
      assert entries == entries[..n] + [entries[n]];
      GroupConcat(entries[..n], [entries[n]], EnvName, name);
      assert Group([entries[n]], EnvName, name) == if entries[n].name == name then [entries[n]] else [];
    }
  }

  /** For every list, duplicates included, the rendered map holds the last value given
      to each name in the original order. */
  lemma RenderedIsLast(entries: seq<EnvVar>, name: bytes)
    ensures Lookup(RenderedMap(entries), name) == LastValue(Group(entries, EnvName, name))
  {
    SortProperties(entries, EnvName);
    InsertAllIsLast(Sort(entries, EnvName), name);
    assert Group(Sort(entries, EnvName), EnvName, name) == Group(entries, EnvName, name);
  }

  /** The two lookups agree on a name exactly when its first and last values are equal. */
  lemma LookupsAgree(entries: seq<EnvVar>, name: bytes)
    ensures FirstValue(entries, name) == Lookup(RenderedMap(entries), name) <==>
            var g := Group(entries, EnvName, name); g == [] || g[0].value == g[|g| - 1].value
  {
    FirstIsHead(entries, name);
    RenderedIsLast(entries, name);
  }

  lemma {:induction false} UniqueGroup(entries: seq<EnvVar>, name: bytes)
    requires UniqueNames(entries)
    ensures |Group(entries, EnvName, name)| <= 1
  {
    if entries == [] {
    } else {
      UniqueGroup(entries[1..], name);
      GroupMembers(entries[1..], EnvName, name);
    }
  }

  /** With unique names, first match, last match and the rendered map are one lookup. */
  lemma UniqueLookups(entries: seq<EnvVar>, name: bytes)
    requires UniqueNames(entries)
    ensures FirstValue(entries, name) == Lookup(RenderedMap(entries), name)
            == LastValue(Group(entries, EnvName, name))
  {
    UniqueGroup(entries, name);
    LookupsAgree(entries, name);
    RenderedIsLast(entries, name);
  }

  /** The workload is small when its memory limit parses and is below 512 MiB. */
  predicate IsSmall(limit: Option<bytes>, mib: bytes -> Option<real>) {
    limit.Some? && mib(limit.value).Some? && mib(limit.value).value < 512.0
  }

  predicate IsSmallShape(d: DeploymentDescriptor, mib: bytes -> Option<real>) {
    IsSmall(FirstValue(d.ociRuntimeSpec.resources.limits, Ascii("memory")), mib)
  }

  /** Once the duplicate check accepts, the shape computed from the signed list is the
      shape of the manifest that is rendered, however memory text is parsed. */
  lemma ShapeMatchesManifest(d: DeploymentDescriptor, mib: bytes -> Option<real>)
    requires UniqueResources(d)
    ensures IsSmallShape(d, mib)
            == IsSmall(Lookup(RenderedMap(d.ociRuntimeSpec.resources.limits), Ascii("memory")), mib)
  {
    UniqueLookups(d.ociRuntimeSpec.resources.limits, Ascii("memory"));
  }

  /** Without the check the shapes can differ: two memory limits, small first. */
  lemma DuplicatesDisagree(small: bytes, large: bytes, mib: bytes -> Option<real>)
    requires mib(small) == Some(256.0) && mib(large) == Some(1024.0)
    ensures var limits := [EnvVar(Ascii("memory"), small), EnvVar(Ascii("memory"), large)];
            && IsSmall(FirstValue(limits, Ascii("memory")), mib)
            && !IsSmall(Lookup(RenderedMap(limits), Ascii("memory")), mib)
  {
    var name := Ascii("memory");
    var limits := [EnvVar(name, small), EnvVar(name, large)];
    RenderedIsLast(limits, name);
    assert limits[1..] == [EnvVar(name, large)];
    assert Group(limits[1..], EnvName, name) == [EnvVar(name, large)];
    assert Group(limits, EnvName, name) == limits;
  }

  /** The workload is small exactly when the first limit named `memory` parses to less than 512 MiB. */
  lemma SmallShapeExactly(d: DeploymentDescriptor, mib: bytes -> Option<real>)
    ensures var limits := d.ociRuntimeSpec.resources.limits;
            IsSmallShape(d, mib) <==>
            exists i :: && 0 <= i < |limits| && limits[i].name == Ascii("memory")
                        && (forall j :: 0 <= j < i ==> limits[j].name != Ascii("memory"))
                        && mib(limits[i].value).Some? && mib(limits[i].value).value < 512.0
  {
    FirstValueExactly(d.ociRuntimeSpec.resources.limits, Ascii("memory"));
  }

  /** First match: the value at the first index with the name. */
  lemma {:induction false} FirstValueExactly(entries: seq<EnvVar>, name: bytes)
    ensures FirstValue(entries, name).None? <==> forall i :: 0 <= i < |entries| ==> entries[i].name != name
    ensures forall i :: 0 <= i < |entries| && entries[i].name == name
                        && (forall j :: 0 <= j < i ==> entries[j].name != name) ==>
                          FirstValue(entries, name) == Some(entries[i].value)
    ensures FirstValue(entries, name).Some? ==>
              exists i :: 0 <= i < |entries| && entries[i].name == name
                          && forall j :: 0 <= j < i ==> entries[j].name != name
  {
    if entries == [] {
    } else {
      var rest := entries[1..];
      FirstValueExactly(rest, name);
      assert forall i :: 0 < i < |entries| ==> entries[i] == rest[i - 1];
      if entries[0].name != name {
        forall i | 0 <= i < |entries| && entries[i].name == name
                   && (forall j :: 0 <= j < i ==> entries[j].name != name)
          ensures FirstValue(entries, name) == Some(entries[i].value)
        {
          assert rest[i - 1].name == name;
          assert forall j :: 0 <= j < i - 1 ==> rest[j] == entries[j + 1];
        }
        if FirstValue(rest, name).Some? {
          var i :| 0 <= i < |rest| && rest[i].name == name && forall j :: 0 <= j < i ==> rest[j].name != name;
          assert entries[i + 1].name == name;
        }
      }
    }
  }
}
