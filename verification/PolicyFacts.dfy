/** The concrete passes meet the conditions of the general laws, and the results that
    follow for them. Facts about long constants are built up from short literals. */
module PolicyFacts {
  import opened TextRewriting
  import opened PolicyLines
  import opened PolicyConstants
  import opened PolicyPasses

  // ------------------------------------------------- characters that lines lack

  predicate FreeOf(line: string, chars: string) {
    forall c :: c in line ==> c !in chars
  }

  predicate AllFree(lines: seq<string>, chars: string) {
    forall i :: 0 <= i < |lines| ==> FreeOf(lines[i], chars)
  }

  /** The fixed parts of the line forms lack the characters. */
  predicate FrameFree(chars: string) {
    && FreeOf("    ", chars) && FreeOf(" == ", chars) && FreeOf(" in ", chars)
    && FreeOf("(", chars) && FreeOf(")", chars) && FreeOf(") if {", chars) && FreeOf("}", chars)
  }

  lemma EqualsFree(a: string, b: string, chars: string)
    requires FrameFree(chars) && FreeOf(a, chars) && FreeOf(b, chars)
    ensures FreeOf(Equals(a, b), chars)
  {
  }

  lemma InFree(a: string, b: string, chars: string)
    requires FrameFree(chars) && FreeOf(a, chars) && FreeOf(b, chars)
    ensures FreeOf(In(a, b), chars)
  {
  }

  lemma CallFree(name: string, args: string, chars: string)
    requires FrameFree(chars) && FreeOf(name, chars) && FreeOf(args, chars)
    ensures FreeOf(Call(name, args), chars)
  {
  }

  lemma HeadFree(name: string, params: string, chars: string)
    requires FrameFree(chars) && FreeOf(name, chars) && FreeOf(params, chars)
    ensures FreeOf(Head(name, params), chars)
  {
  }

  lemma ClauseFree(head: string, body: seq<string>, chars: string)
    requires FrameFree(chars) && FreeOf(head, chars) && AllFree(body, chars)
    ensures AllFree(Clause(head, body), chars)
  {
    var c := Clause(head, body);
    forall i | 0 <= i < |c| ensures FreeOf(c[i], chars) {
      if 2 <= i < 2 + |body| {
        assert c[i] == body[i - 2];
      }
    }
  }

  lemma FrameIsFree()
    ensures FrameFree("\n$") && FrameFree("\n$x")
  {
  }

  lemma FrameIsFreeOfMore()
    ensures FrameFree("\n$gm") && FrameFree("\n$mbx") && FrameFree("\nmbe")
  {
  }

  // ------------------------------------------------------- last characters of lines

  /** Every line is empty or ends in a character outside `chars`. */
  predicate EndsOutside(lines: seq<string>, chars: string) {
    forall i :: 0 <= i < |lines| ==> lines[i] == "" || lines[i][|lines[i]| - 1] !in chars
  }

  lemma ClauseEnds(head: string, body: seq<string>, chars: string)
    requires EndsOutside([head], chars) && EndsOutside(body, chars) && '}' !in chars
    ensures EndsOutside(Clause(head, body), chars)
  {
    var c := Clause(head, body);
    assert [head][0] == head;
    forall i | 0 <= i < |c| ensures c[i] == "" || c[i][|c[i]| - 1] !in chars {
      if 2 <= i < 2 + |body| {
        assert c[i] == body[i - 2];
      }
    }
  }

  lemma HeadEnds(name: string, params: string, chars: string)
    requires '{' !in chars
    ensures EndsOutside([Head(name, params)], chars)
  {
  }

  /** Two lines that differ at the k-th last character are no endings of each other. */
  lemma Differ(a: string, b: string, k: nat)
    requires k < |a| && k < |b| && a[|a| - 1 - k] != b[|b| - 1 - k]
    ensures !EndsWith(a, b) && !EndsWith(b, a)
  {
    if |b| <= |a| {
      assert a[|a| - |b|..][|b| - 1 - k] == a[|a| - 1 - k];
    }
    if |a| <= |b| {
      assert b[|b| - |a|..][|a| - 1 - k] == b[|b| - 1 - k];
    }
  }

  lemma NoneEnds(lines: seq<string>, chars: string, line: string)
    requires EndsOutside(lines, chars) && line != "" && line[|line| - 1] in chars
    ensures NoLineEnds(lines, line)
  {
    forall i | 0 <= i < |lines| ensures !EndsWith(lines[i], line) {
      if lines[i] != "" {
        Differ(lines[i], line, 0);
      }
    }
  }

  // ---------------------------------------------------------------- words in lines

  lemma WordAbsent(line: string, chars: string, c: char, word: string)
    requires FreeOf(line, chars) && c in chars && c in word
    ensures !Contains(line, word)
  {
    ContainsElements(line, word);
  }

  lemma WordAbsentAll(lines: seq<string>, chars: string, c: char, word: string)
    requires AllFree(lines, chars) && c in chars && c in word
    ensures NoLineHas(lines, word)
  {
    forall i | 0 <= i < |lines| ensures !Contains(lines[i], word) {
      WordAbsent(lines[i], chars, c, word);
    }
  }

  /** Where a character occurs once in a text and once in a word, the word occurs only if
      the text before the one ends with what stands before the other. */
  lemma WordAroundChar(a: string, c: char, b: string, u: string, v: string)
    requires c !in a && c !in b
    ensures Contains(a + [c] + b, u + [c] + v) ==> EndsWith(a, u)
  {
    var s, w := a + [c] + b, u + [c] + v;
    if Contains(s, w) {
      var i :| 0 <= i <= |s| && OccursAt(s, w, i);
      var k := i + |u|;
      OccursElement(s, w, i, |u|);
      assert k == |a|;
      assert u + [c] + v == u + ([c] + v);
      OccursPrefix(s, u, [c] + v, i);
      assert a[i..] == s[i..k];
    }
  }

  // -------------------------------------------------------------- the PID namespace

  lemma PidnsTokens()
    ensures FreeOf(PIDNS, "\n$gm") && FreeOf("p_pidns", "\n$gm") && FreeOf("i_pidns", "\n$gm")
    ensures FreeOf("false", "\n$gm") && FreeOf("\"sandbox\"", "\n$gm")
  {
  }

  lemma PidnsLongTokens()
    ensures FreeOf("_p_container, p_pidns, i_pidns", "\n$gm")
    ensures FreeOf("p_container, _p_pidns, i_pidns", "\n$gm")
    ensures FreeOf("p_container, p_pidns, i_pidns", "\n$gm")
  {
  }

  lemma PidnsAnnotation()
    ensures FreeOf("p_container.OCI", "\n$gm") && FreeOf(".Annotations", "\n$gm")
    ensures FreeOf("[\"io.", "\n$gm") && FreeOf("kubernetes.cri", "\n$gm")
    ensures FreeOf(".container-type\"]", "\n$gm")
  {
    PidnsAnnotationKey();
  }

  lemma PidnsAnnotationKey()
    ensures FreeOf("[\"io.", "\n$gm") && FreeOf("kubernetes.cri", "\n$gm")
    ensures FreeOf(".container-type\"]", "\n$gm")
  {
  }

  lemma PidnsFree()
    ensures AllFree(PIDNS_HELPER, "\n$gm")
    ensures FreeOf(PIDNS_RULE.check, "\n$gm") && AllFree(PIDNS_RULE.allow, "\n$gm")
  {
    FrameIsFreeOfMore();
    PidnsTokens();
    PidnsLongTokens();
    PidnsAnnotation();
    EqualsFree("p_pidns", "i_pidns", "\n$gm");
    EqualsFree("i_pidns", "false", "\n$gm");
    var annotation := "p_container.OCI" + ".Annotations" + "[\"io." + "kubernetes.cri" + ".container-type\"]";
    assert FreeOf(annotation, "\n$gm");
    EqualsFree(annotation, "\"sandbox\"", "\n$gm");
    HeadFree(PIDNS, "_p_container, p_pidns, i_pidns", "\n$gm");
    HeadFree(PIDNS, "p_container, _p_pidns, i_pidns", "\n$gm");
    CallFree(PIDNS, "p_container, p_pidns, i_pidns", "\n$gm");
    ClauseFree(Head(PIDNS, "_p_container, p_pidns, i_pidns"), [Equals("p_pidns", "i_pidns")], "\n$gm");
    ClauseFree(Head(PIDNS, "p_container, _p_pidns, i_pidns"),
               [Equals(annotation, "\"sandbox\""), Equals("i_pidns", "false")], "\n$gm");
  }

  // ------------------------------------------------------------ rootfs propagation

  lemma RootfsTokens()
    ensures FreeOf(ROOTFS, "\n$mbx") && FreeOf("rootfs_propagation", "\n$mbx")
    ensures FreeOf("count(", "\n$mbx") && FreeOf("0", "\n$mbx")
    ensures FreeOf("\"rshared\"", "\n$mbx") && FreeOf("\"rslave\"", "\n$mbx")
  {
    RootfsName();
  }

  lemma RootfsName()
    ensures FreeOf(ROOTFS, "\n$mbx")
  {
  }

  lemma RootfsRuleTokens()
    ensures FreeOf(ROOTFS, "\nmbe") && FreeOf("i_linux" + ".RootfsPropagation", "\nmbe")
    ensures FreeOf("count(i_linux" + ".RootfsPropagation)", "\nmbe") && FreeOf("0", "\nmbe")
  {
    RootfsCountToken();
  }

  lemma RootfsCountToken()
    ensures FreeOf("count(i_linux" + ".RootfsPropagation)", "\nmbe")
  {
  }

  lemma RootfsFree()
    ensures AllFree(ROOTFS_HELPER, "\n$mbx")
    ensures FreeOf(ROOTFS_RULE.check, "\nmbe") && AllFree(ROOTFS_RULE.allow, "\nmbe")
  {
    FrameIsFreeOfMore();
    RootfsTokens();
    RootfsRuleTokens();
    var head := Head(ROOTFS, "rootfs_propagation");
    HeadFree(ROOTFS, "rootfs_propagation", "\n$mbx");
    EqualsFree("count(" + "rootfs_propagation" + ")", "0", "\n$mbx");
    EqualsFree("rootfs_propagation", "\"rshared\"", "\n$mbx");
    EqualsFree("rootfs_propagation", "\"rslave\"", "\n$mbx");
    ClauseFree(head, [Equals("count(" + "rootfs_propagation" + ")", "0")], "\n$mbx");
    ClauseFree(head, [Equals("rootfs_propagation", "\"rshared\"")], "\n$mbx");
    ClauseFree(head, [Equals("rootfs_propagation", "\"rslave\"")], "\n$mbx");
    EqualsFree("count(i_linux" + ".RootfsPropagation)", "0", "\nmbe");
    CallFree(ROOTFS, "i_linux" + ".RootfsPropagation", "\nmbe");
  }

  lemma RootfsEnds()
    ensures EndsOutside(ROOTFS_HELPER, "spet")
  {
    var head := Head(ROOTFS, "rootfs_propagation");
    HeadEnds(ROOTFS, "rootfs_propagation", "spet");
    ClauseEnds(head, [Equals("count(" + "rootfs_propagation" + ")", "0")], "spet");
    ClauseEnds(head, [Equals("rootfs_propagation", "\"rshared\"")], "spet");
    ClauseEnds(head, [Equals("rootfs_propagation", "\"rslave\"")], "spet");
  }

  // --------------------------------------------------------------- storage and mounts

  lemma StorageNames()
    ensures FreeOf(MOUNT, "\n$x") && FreeOf(FS_GROUP, "\n$x") && FreeOf(OPTIONS, "\n$x")
    ensures FreeOf("p_mount, i_mount", "\n$x") && FreeOf("p_storage, i_storage", "\n$x")
  {
    StorageArguments();
    MoreStorageNames();
  }

  lemma MoreStorageNames()
    ensures FreeOf(FS_GROUP, "\n$x") && FreeOf(OPTIONS, "\n$x")
  {
  }

  lemma StorageArguments()
    ensures FreeOf("p_mount, i_mount", "\n$x") && FreeOf("p_storage, i_storage", "\n$x")
  {
  }

  lemma MountTokens()
    ensures FreeOf("p_mount.type_", "\n$x") && FreeOf("\"bind\"", "\n$x")
    ensures FreeOf("p_mount.source", "\n$x") && FreeOf("\"\"", "\n$x")
    ensures FreeOf("p_mount.options", "\n$x") && FreeOf("i_mount.options", "\n$x")
  {
  }

  lemma OptionTokens()
    ensures FreeOf("[\"rbind\", \"rprivate\"" + ", \"rw\"]", "\n$x")
    ensures FreeOf("[\"rbind\", \"rprivate\"" + ", \"ro\"]", "\n$x")
  {
  }

  lemma MoreOptionTokens()
    ensures FreeOf("[\"rbind\", \"rslave\"" + ", \"rw\"]", "\n$x")
    ensures FreeOf("[\"rbind\", \"rslave\"" + ", \"ro\"]", "\n$x")
    ensures FreeOf("[\"rbind\", \"rshared\"" + ", \"rw\"]", "\n$x")
  {
  }

  lemma StorageTokens()
    ensures FreeOf("p_storage.fs_group", "\n$x") && FreeOf("p_storage.options", "\n$x")
    ensures FreeOf("i_storage.fs_group", "\n$x") && FreeOf("i_storage.options", "\n$x")
    ensures FreeOf("      ", "\n$x") && FreeOf("null", "\n$x") && FreeOf("[]", "\n$x")
  {
  }

  lemma GroupTokens()
    ensures FreeOf(".group_change_policy", "\n$x") && FreeOf(".group_id", "\n$x")
    ensures FreeOf("[\"fsgid=10001\"]", "\n$x") && FreeOf("0", "\n$x") && FreeOf("10001", "\n$x")
  {
  }

  lemma MountClauseFree(policy: string, input: string)
    requires FreeOf(policy, "\n$x") && FreeOf(input, "\n$x")
    ensures AllFree(MountClause(policy, input), "\n$x")
  {
    FrameIsFree();
    StorageNames();
    MountTokens();
    HeadFree(MOUNT, "p_mount, i_mount", "\n$x");
    EqualsFree("p_mount.type_", "\"bind\"", "\n$x");
    EqualsFree("p_mount.source", "\"\"", "\n$x");
    EqualsFree("p_mount.options", policy, "\n$x");
    EqualsFree("i_mount.options", input, "\n$x");
    ClauseFree(Head(MOUNT, "p_mount, i_mount"),
               [Equals("p_mount.type_", "\"bind\""), Equals("p_mount.source", "\"\""),
                Equals("p_mount.options", policy), Equals("i_mount.options", input)], "\n$x");
  }

  lemma FsgidFree()
    ensures AllFree(FSGID_BODY, "\n$x")
  {
    FrameIsFree();
    StorageTokens();
    GroupTokens();
    EqualsFree("p_storage.fs_group", "null", "\n$x");
    EqualsFree("p_storage.options", "[\"fsgid=10001\"]", "\n$x");
    EqualsFree("i_storage.options", "[]", "\n$x");
    EqualsFree("i_storage.fs_group" + ".group_change_policy", "0", "\n$x");
    EqualsFree("i_storage.fs_group" + ".group_id", "10001", "\n$x");
  }

  lemma StorageRulesFree()
    ensures FreeOf(MOUNT_RULE.check, "\n$x") && AllFree(MOUNT_RULE.allow, "\n$x")
    ensures FreeOf(FS_GROUP_RULE.check, "\n$x") && AllFree(FS_GROUP_RULE.allow, "\n$x")
    ensures FreeOf(OPTIONS_RULE.check, "\n$x") && AllFree(OPTIONS_RULE.allow, "\n$x")
  {
    FrameIsFree();
    StorageNames();
    MountTokens();
    StorageTokens();
    EqualsFree("p_mount.options", "i_mount.options", "\n$x");
    EqualsFree("p_storage.fs_group" + "      ", "i_storage.fs_group", "\n$x");
    EqualsFree("p_storage.options", "i_storage.options", "\n$x");
    CallFree(MOUNT, "p_mount, i_mount", "\n$x");
    CallFree(FS_GROUP, "p_storage, i_storage", "\n$x");
    CallFree(OPTIONS, "p_storage, i_storage", "\n$x");
  }

  lemma StorageClausesFree()
    ensures AllFree(Clause(Head(MOUNT, "p_mount, i_mount"), [Equals("p_mount.options", "i_mount.options")]), "\n$x")
    ensures AllFree(Clause(Head(FS_GROUP, "p_storage, i_storage"),
                           [Equals("p_storage.fs_group", "i_storage.fs_group")]), "\n$x")
    ensures AllFree(Clause(Head(OPTIONS, "p_storage, i_storage"),
                           [Equals("p_storage.options", "i_storage.options")]), "\n$x")
    ensures AllFree(Clause(Head(FS_GROUP, "p_storage, i_storage"), FSGID_BODY), "\n$x")
    ensures AllFree(Clause(Head(OPTIONS, "p_storage, i_storage"), FSGID_BODY), "\n$x")
  {
    FrameIsFree();
    StorageNames();
    MountTokens();
    StorageTokens();
    FsgidFree();
    EqualsFree("p_mount.options", "i_mount.options", "\n$x");
    EqualsFree("p_storage.fs_group", "i_storage.fs_group", "\n$x");
    EqualsFree("p_storage.options", "i_storage.options", "\n$x");
    HeadFree(MOUNT, "p_mount, i_mount", "\n$x");
    HeadFree(FS_GROUP, "p_storage, i_storage", "\n$x");
    HeadFree(OPTIONS, "p_storage, i_storage", "\n$x");
    ClauseFree(Head(MOUNT, "p_mount, i_mount"), [Equals("p_mount.options", "i_mount.options")], "\n$x");
    ClauseFree(Head(FS_GROUP, "p_storage, i_storage"), [Equals("p_storage.fs_group", "i_storage.fs_group")], "\n$x");
    ClauseFree(Head(OPTIONS, "p_storage, i_storage"), [Equals("p_storage.options", "i_storage.options")], "\n$x");
    ClauseFree(Head(FS_GROUP, "p_storage, i_storage"), FSGID_BODY, "\n$x");
    ClauseFree(Head(OPTIONS, "p_storage, i_storage"), FSGID_BODY, "\n$x");
  }

  lemma StorageFree()
    ensures AllFree(STORAGE_HELPER, "\n$x")
  {
    OptionTokens();
    MoreOptionTokens();
    StorageClausesFree();
    MountClauseFree("[\"rbind\", \"rprivate\"" + ", \"rw\"]", "[\"rbind\", \"rslave\"" + ", \"rw\"]");
    MountClauseFree("[\"rbind\", \"rprivate\"" + ", \"ro\"]", "[\"rbind\", \"rslave\"" + ", \"ro\"]");
    MountClauseFree("[\"rbind\", \"rprivate\"" + ", \"rw\"]", "[\"rbind\", \"rshared\"" + ", \"rw\"]");
  }

  lemma MountClauseEnds(policy: string, input: string)
    requires policy != "" && policy[|policy| - 1] == ']' && input != "" && input[|input| - 1] == ']'
    ensures EndsOutside(MountClause(policy, input), "et")
  {
    HeadEnds(MOUNT, "p_mount, i_mount", "et");
    ClauseEnds(Head(MOUNT, "p_mount, i_mount"),
               [Equals("p_mount.type_", "\"bind\""), Equals("p_mount.source", "\"\""),
                Equals("p_mount.options", policy), Equals("i_mount.options", input)], "et");
  }

  lemma StorageEnds()
    ensures EndsOutside(STORAGE_HELPER, "et")
  {
    HeadEnds(MOUNT, "p_mount, i_mount", "et");
    HeadEnds(FS_GROUP, "p_storage, i_storage", "et");
    HeadEnds(OPTIONS, "p_storage, i_storage", "et");
    assert EndsOutside(FSGID_BODY, "et");
    ClauseEnds(Head(MOUNT, "p_mount, i_mount"), [Equals("p_mount.options", "i_mount.options")], "et");
    ClauseEnds(Head(FS_GROUP, "p_storage, i_storage"), [Equals("p_storage.fs_group", "i_storage.fs_group")], "et");
    ClauseEnds(Head(OPTIONS, "p_storage, i_storage"), [Equals("p_storage.options", "i_storage.options")], "et");
    ClauseEnds(Head(FS_GROUP, "p_storage, i_storage"), FSGID_BODY, "et");
    ClauseEnds(Head(OPTIONS, "p_storage, i_storage"), FSGID_BODY, "et");
    MountClauseEnds("[\"rbind\", \"rprivate\"" + ", \"rw\"]", "[\"rbind\", \"rslave\"" + ", \"rw\"]");
    MountClauseEnds("[\"rbind\", \"rprivate\"" + ", \"ro\"]", "[\"rbind\", \"rslave\"" + ", \"ro\"]");
    MountClauseEnds("[\"rbind\", \"rprivate\"" + ", \"rw\"]", "[\"rbind\", \"rshared\"" + ", \"rw\"]");
  }

  // ---------------------------------------------------------------- sandbox storages

  lemma SandboxTokens()
    ensures FreeOf("i_storage.driver", "\n$x") && FreeOf("_options", "\n$x") && FreeOf("\"9p\"", "\n$x")
    ensures FreeOf("i_storage.fstype", "\n$x") && FreeOf("i_storage.shared", "\n$x")
    ensures FreeOf("i_storage.source", "\n$x") && FreeOf("false", "\n$x") && FreeOf("3", "\n$x")
  {
  }

  lemma SandboxPathTokens()
    ensures FreeOf("i_storage.mount_point", "\n$x")
    ensures FreeOf("\"/run/kata-containers" + "/shared/containers/\"", "\n$x")
    ensures FreeOf("count(i_storage.options)", "\n$x")
  {
    SharedPathToken();
  }

  lemma SharedPathToken()
    ensures FreeOf("\"/run/kata-containers" + "/shared/containers/\"", "\n$x")
  {
  }

  lemma SandboxQuotedTokens()
    ensures FreeOf("\"trans=virtio" + ",version=9p2000.L" + ",cache=mmap\"", "\n$x")
    ensures FreeOf("\"nodev\"", "\n$x") && FreeOf("\"msize=8192\"", "\n$x")
    ensures FreeOf("\"kataShared\"", "\n$x")
  {
  }

  lemma SandboxBodyFree()
    ensures AllFree(SANDBOX_BODY, "\n$x")
  {
    FrameIsFree();
    SandboxTokens();
    SandboxPathTokens();
    SandboxQuotedTokens();
    StorageTokens();
    EqualsFree("i_storage.driver", "\"9p\"", "\n$x");
    EqualsFree("i_storage.driver" + "_options", "[]", "\n$x");
    EqualsFree("i_storage.fs_group", "null", "\n$x");
    EqualsFree("i_storage.fstype", "\"9p\"", "\n$x");
    EqualsFree("i_storage.mount_point", "\"/run/kata-containers" + "/shared/containers/\"", "\n$x");
    EqualsFree("count(i_storage.options)", "3", "\n$x");
    InFree("\"trans=virtio" + ",version=9p2000.L" + ",cache=mmap\"", "i_storage.options", "\n$x");
    InFree("\"nodev\"", "i_storage.options", "\n$x");
    InFree("\"msize=8192\"", "i_storage.options", "\n$x");
    EqualsFree("i_storage.shared", "false", "\n$x");
    EqualsFree("i_storage.source", "\"kataShared\"", "\n$x");
  }

  lemma SandboxNameTokens()
    ensures FreeOf(SANDBOX_BEFORE_X, "\n$x") && FreeOf("_storage", "\n$x")
    ensures FreeOf("p_storage, i_storage", "\n$x") && FreeOf("_p_storage, i_storage", "\n$x")
    ensures FreeOf("i_storage", "\n$x") && FreeOf("p_storage", "\n$x")
  {
  }

  /** A line built on the sandbox name never contains the extra-storage marker: the
      letter before the one x differs. */
  lemma SandboxLineHasNoExtra(before: string, after: string)
    requires FreeOf(before, "\n$x") && FreeOf(after, "\n$x")
    ensures !Contains(before + SANDBOX + after, EXTRA)
  {
    SandboxNameTokens();
    var a, b := before + SANDBOX_BEFORE_X, "_storage" + after;
    assert before + SANDBOX + after == a + ['x'] + b;
    Differ(a, EXTRA_BEFORE_X, 0);
    assert forall c :: c in a ==> c in before || c in SANDBOX_BEFORE_X;
    assert forall c :: c in b ==> c in "_storage" || c in after;
    assert 'x' in "\n$x";
    WordAroundChar(a, 'x', b, EXTRA_BEFORE_X, "tra_storage");
  }

  lemma SandboxHeadsHaveNoExtra()
    ensures !Contains(Head(SANDBOX, "p_storage, i_storage"), EXTRA)
    ensures !Contains(Head(SANDBOX, "_p_storage, i_storage"), EXTRA)
    ensures !Contains(Call(SANDBOX, "p_storage, i_storage"), EXTRA)
  {
    FrameIsFree();
    SandboxNameTokens();
    var t, u, v := "(" + "p_storage, i_storage" + ") if {", "(" + "_p_storage, i_storage" + ") if {",
                   "(" + "p_storage, i_storage" + ")";
    assert FreeOf("", "\n$x");
    SandboxLineHasNoExtra("", t);
    SandboxLineHasNoExtra("", u);
    SandboxLineHasNoExtra("    ", v);
    assert Head(SANDBOX, "p_storage, i_storage") == "" + SANDBOX + t;
    assert Head(SANDBOX, "_p_storage, i_storage") == "" + SANDBOX + u;
    assert Call(SANDBOX, "p_storage, i_storage") == "    " + SANDBOX + v;
  }

  lemma SandboxLinesHaveNoExtra()
    ensures NoLineHas(SANDBOX_HELPER, EXTRA)
  {
    FrameIsFree();
    SandboxNameTokens();
    SandboxHeadsHaveNoExtra();
    SandboxBodyFree();
    WordAbsentAll(SANDBOX_BODY, "\n$x", 'x', EXTRA);
    EqualsFree("i_storage", "p_storage", "\n$x");
    WordAbsent(Equals("i_storage", "p_storage"), "\n$x", 'x', EXTRA);
    WordAbsent("}", "\n$x", 'x', EXTRA);
    assert FreeOf("", "\n$x");
    WordAbsent("", "\n$x", 'x', EXTRA);
    ClauseHasNoWord(Head(SANDBOX, "p_storage, i_storage"), [Equals("i_storage", "p_storage")], EXTRA);
    ClauseHasNoWord(Head(SANDBOX, "_p_storage, i_storage"), SANDBOX_BODY, EXTRA);
  }

  lemma ClauseHasNoWord(head: string, body: seq<string>, word: string)
    requires !Contains(head, word) && NoLineHas(body, word)
    requires !Contains("", word) && !Contains("}", word)
    ensures NoLineHas(Clause(head, body), word)
  {
    var c := Clause(head, body);
    forall i | 0 <= i < |c| ensures !Contains(c[i], word) {
      if 2 <= i < 2 + |body| {
        assert c[i] == body[i - 2];
      }
    }
  }

  lemma SandboxPlain()
    ensures AllFree(SANDBOX_HELPER, "\n$")
    ensures FreeOf(SANDBOX_RULE.check, "\n$x") && AllFree(SANDBOX_RULE.allow, "\n$")
  {
    FrameIsFree();
    SandboxNameTokens();
    SandboxBodyFree();
    Weaken(SANDBOX_BODY);
    assert FreeOf(SANDBOX, "\n$") by {
      assert FreeOf(['x'], "\n$");
      WeakenLine(SANDBOX_BEFORE_X);
      WeakenLine("_storage");
    }
    WeakenLine("p_storage, i_storage");
    WeakenLine("_p_storage, i_storage");
    HeadFree(SANDBOX, "p_storage, i_storage", "\n$");
    HeadFree(SANDBOX, "_p_storage, i_storage", "\n$");
    CallFree(SANDBOX, "p_storage, i_storage", "\n$");
    EqualsFree("i_storage", "p_storage", "\n$x");
    WeakenLine(Equals("i_storage", "p_storage"));
    ClauseFree(Head(SANDBOX, "p_storage, i_storage"), [Equals("i_storage", "p_storage")], "\n$");
    ClauseFree(Head(SANDBOX, "_p_storage, i_storage"), SANDBOX_BODY, "\n$");
  }

  lemma WeakenLine(line: string)
    requires FreeOf(line, "\n$x")
    ensures FreeOf(line, "\n$")
  {
    assert forall c :: c in "\n$" ==> c in "\n$x";
  }

  lemma Weaken(lines: seq<string>)
    requires AllFree(lines, "\n$x")
    ensures AllFree(lines, "\n$")
  {
    forall i | 0 <= i < |lines| ensures FreeOf(lines[i], "\n$") {
      WeakenLine(lines[i]);
    }
  }

  lemma SandboxEnds()
    ensures EndsOutside(SANDBOX_HELPER, "t")
  {
    HeadEnds(SANDBOX, "p_storage, i_storage", "t");
    HeadEnds(SANDBOX, "_p_storage, i_storage", "t");
    assert EndsOutside(SANDBOX_BODY, "t");
    ClauseEnds(Head(SANDBOX, "p_storage, i_storage"), [Equals("i_storage", "p_storage")], "t");
    ClauseEnds(Head(SANDBOX, "_p_storage, i_storage"), SANDBOX_BODY, "t");
  }

  // -------------------------------------------------------------------- extra storages

  lemma ExtraNameTokens()
    ensures FreeOf(EXTRA_BEFORE_X, "\n$") && FreeOf(['x'], "\n$") && FreeOf("tra_storage", "\n$")
    ensures FreeOf("allow_storage", "\n$") && FreeOf("_p_storages, i_storage", "\n$")
  {
  }

  lemma ExtraParameterTokens()
    ensures FreeOf(", bundle_id, sandbox_id", "\n$") && FreeOf("i_storage, bundle_id", "\n$")
    ensures FreeOf(", sandbox_id", "\n$") && FreeOf(", _sandbox_id", "\n$")
  {
  }

  lemma ExtraRuleTokens()
    ensures FreeOf("p_count", "\n$") && FreeOf("i_count", "\n$") && FreeOf(" - img_pull_count", "\n$")
  {
  }

  lemma ExtraCallTokens()
    ensures FreeOf("cap_extra_storage_count", "\n$") && FreeOf(" := count([s | s", "\n$")
    ensures FreeOf(" := i_storages[_]; ", "\n$") && FreeOf("(s, bundle_id", "\n$")
    ensures FreeOf(", sandbox_id)])", "\n$")
  {
  }

  lemma ExtraCountTokens()
    ensures FreeOf("    print(\"", "\n$") && FreeOf("allow_storages: ", "\n$")
    ensures FreeOf(" =\", ", "\n$") && FreeOf(" - cap_extra_storage_count", "\n$")
  {
  }

  lemma ExtraRuleFree()
    ensures FreeOf(EXTRA_RULE.check, "\n$") && AllFree(EXTRA_RULE.allow, "\n$")
  {
    FrameIsFree();
    ExtraNameTokens();
    ExtraRuleTokens();
    ExtraCallTokens();
    ExtraCountTokens();
    EqualsFree("p_count", "i_count" + " - img_pull_count", "\n$");
    EqualsFree("p_count", "i_count" + " - img_pull_count" + " - cap_extra_storage_count", "\n$");
    assert FreeOf(EXTRA_RULE.allow[0], "\n$");
    assert FreeOf(EXTRA_RULE.allow[1], "\n$");
  }

  lemma ExtraBodyTokens()
    ensures FreeOf("\"watchable-bind\"", "\n$") && FreeOf("\"bind\"", "\n$")
    ensures FreeOf("[\"rbind\", \"rprivate\"", "\n$") && FreeOf(", \"ro\"]", "\n$")
    ensures FreeOf("    watchable_prefix", "\n$") && FreeOf(" := concat(\"\", [", "\n$")
    ensures FreeOf("    source_prefix", "\n$") && FreeOf(", bundle_id, \"-\"])", "\n$")
  {
    ExtraConcatTokens();
  }

  lemma ExtraConcatTokens()
    ensures FreeOf("    watchable_prefix", "\n$") && FreeOf(" := concat(\"\", [", "\n$")
    ensures FreeOf("    source_prefix", "\n$") && FreeOf(", bundle_id, \"-\"])", "\n$")
  {
  }

  lemma ExtraPathTokens()
    ensures FreeOf("\"/run/kata-containers", "\n$") && FreeOf("/shared/containers", "\n$")
    ensures FreeOf("/watchable/\"", "\n$") && FreeOf("/shared/containers/\"", "\n$")
    ensures FreeOf(", \"/watchable/\"", "\n$") && FreeOf(", \"/\")", "\n$") && FreeOf("replace(", "\n$")
  {
  }

  lemma ExtraPrefixTokens()
    ensures FreeOf("    startswith(", "\n$") && FreeOf(", watchable_prefix)", "\n$")
    ensures FreeOf(", source_prefix)", "\n$") && FreeOf("", "\n$")
  {
  }

  lemma ExtraBodyFree()
    ensures AllFree(EXTRA_BODY, "\n$")
  {
    FrameIsFree();
    ExtraBodyTokens();
    ExtraPathTokens();
    ExtraPrefixTokens();
    SandboxTokens();
    SandboxPathTokens();
    StorageTokens();
    WeakenLine("i_storage.driver");
    WeakenLine("_options");
    WeakenLine("[]");
    WeakenLine("i_storage.fs_group");
    WeakenLine("null");
    WeakenLine("i_storage.fstype");
    WeakenLine("i_storage.options");
    WeakenLine("i_storage.shared");
    WeakenLine("false");
    WeakenLine("i_storage.mount_point");
    WeakenLine("i_storage.source");
    EqualsFree("i_storage.driver", "\"watchable-bind\"", "\n$");
    EqualsFree("i_storage.driver" + "_options", "[]", "\n$");
    EqualsFree("i_storage.fs_group", "null", "\n$");
    EqualsFree("i_storage.fstype", "\"bind\"", "\n$");
    EqualsFree("i_storage.options", "[\"rbind\", \"rprivate\"" + ", \"ro\"]", "\n$");
    EqualsFree("i_storage.shared", "false", "\n$");
    EqualsFree("replace(" + "i_storage.mount_point" + ", \"/watchable/\"" + ", \"/\")", "i_storage.source", "\n$");
    ExtraPrefixFree();
  }

  lemma ExtraPrefixFree()
    ensures FreeOf(EXTRA_BODY[7], "\n$") && FreeOf(EXTRA_BODY[8], "\n$")
    ensures FreeOf(EXTRA_BODY[9], "\n$") && FreeOf(EXTRA_BODY[10], "\n$")
  {
    ExtraBodyTokens();
    ExtraPathTokens();
    ExtraPrefixTokens();
    SandboxTokens();
    SandboxPathTokens();
    WeakenLine("i_storage.mount_point");
    WeakenLine("i_storage.source");
  }

  lemma ExtraFree()
    ensures AllFree(EXTRA_HELPER, "\n$")
  {
    FrameIsFree();
    ExtraNameTokens();
    ExtraParameterTokens();
    ExtraBodyFree();
    HeadFree("allow_storage", "_p_storages, i_storage" + ", bundle_id, sandbox_id", "\n$");
    CallFree(EXTRA, "i_storage, bundle_id" + ", sandbox_id", "\n$");
    HeadFree(EXTRA, "i_storage, bundle_id" + ", _sandbox_id", "\n$");
    ClauseFree(Head("allow_storage", "_p_storages, i_storage" + ", bundle_id, sandbox_id"),
               [Call(EXTRA, "i_storage, bundle_id" + ", sandbox_id")], "\n$");
    ClauseFree(Head(EXTRA, "i_storage, bundle_id" + ", _sandbox_id"), EXTRA_BODY, "\n$");
  }

  // ------------------------------------------------------- helpers and the anchor line

  lemma ClauseApart(head: string, body: seq<string>, line: string)
    requires line != "" && line[|line| - 1] != '}'
    requires !EndsWith(head, line) && NoLineEnds(body, line)
    ensures NoLineEnds(Clause(head, body), line)
  {
    var c := Clause(head, body);
    Differ("}", line, 0);
    forall i | 0 <= i < |c| ensures !EndsWith(c[i], line) {
      if 2 <= i < 2 + |body| {
        assert c[i] == body[i - 2];
      }
    }
  }

  lemma AnchorEnd()
    ensures |ANCHOR_LINE| == 43 && ANCHOR_LINE[42] == 'e' && ANCHOR_LINE[41] == 's'
    ensures ANCHOR_LINE[35] == ':'
  {
  }

  lemma FalseIsNotAnchor(a: string)
    ensures !EndsWith(Equals(a, "false"), ANCHOR_LINE)
  {
    AnchorEnd();
    Differ(Equals(a, "false"), ANCHOR_LINE, 7);
  }

  /** The two lines of the PID helper that end like a later check or like the anchor. */
  lemma PidnsHelperApart(line: string)
    requires line != "" && line[|line| - 1] !in "{}\""
    requires !EndsWith(Equals("p_pidns", "i_pidns"), line)
    requires !EndsWith(Equals("i_pidns", "false"), line)
    ensures NoLineEnds(PIDNS_HELPER, line)
  {
    var annotation := Equals("p_container.OCI" + ".Annotations" + "[\"io." + "kubernetes.cri" + ".container-type\"]",
                             "\"sandbox\"");
    Differ(Head(PIDNS, "_p_container, p_pidns, i_pidns"), line, 0);
    Differ(Head(PIDNS, "p_container, _p_pidns, i_pidns"), line, 0);
    Differ(annotation, line, 0);
    ClauseApart(Head(PIDNS, "_p_container, p_pidns, i_pidns"), [Equals("p_pidns", "i_pidns")], line);
    ClauseApart(Head(PIDNS, "p_container, _p_pidns, i_pidns"), [annotation, Equals("i_pidns", "false")], line);
  }

  /** Every line but two is empty or ends in another character. */
  predicate EndsExcept(lines: seq<string>, c: char, a: nat, b: nat) {
    forall i :: 0 <= i < |lines| && i != a && i != b ==>
      lines[i] == "" || lines[i][|lines[i]| - 1] != c
  }

  lemma NoneEndsExcept(lines: seq<string>, line: string, a: nat, b: nat)
    requires line != "" && a < |lines| && b < |lines| && EndsExcept(lines, line[|line| - 1], a, b)
    requires !EndsWith(lines[a], line) && !EndsWith(lines[b], line)
    ensures NoLineEnds(lines, line)
  {
    forall i | 0 <= i < |lines| ensures !EndsWith(lines[i], line) {
      if i != a && i != b && lines[i] != "" {
        Differ(lines[i], line, 0);
      }
    }
  }

  lemma SandboxBodyNotAnchor()
    ensures NoLineEnds(SANDBOX_BODY, ANCHOR_LINE)
  {
    assert EndsExcept(SANDBOX_BODY, 'e', 9, 9);
    AnchorEnd();
    FalseIsNotAnchor("i_storage.shared");
    NoneEndsExcept(SANDBOX_BODY, ANCHOR_LINE, 9, 9);
  }

  lemma SandboxHelperNotAnchor()
    ensures NoLineEnds(SANDBOX_HELPER, ANCHOR_LINE)
  {
    AnchorEnd();
    SandboxBodyNotAnchor();
    Differ(Head(SANDBOX, "p_storage, i_storage"), ANCHOR_LINE, 0);
    Differ(Head(SANDBOX, "_p_storage, i_storage"), ANCHOR_LINE, 0);
    Differ(Equals("i_storage", "p_storage"), ANCHOR_LINE, 1);
    ClauseApart(Head(SANDBOX, "p_storage, i_storage"), [Equals("i_storage", "p_storage")], ANCHOR_LINE);
    ClauseApart(Head(SANDBOX, "_p_storage, i_storage"), SANDBOX_BODY, ANCHOR_LINE);
  }

  lemma ExtraBodyEnds()
    ensures |EXTRA_BODY| == 12 && EndsExcept(EXTRA_BODY, 'e', 5, 11)
  {
  }

  lemma ExtraBodyNotAnchor()
    ensures NoLineEnds(EXTRA_BODY, ANCHOR_LINE)
  {
    ExtraBodyEnds();
    AnchorEnd();
    FalseIsNotAnchor("i_storage.shared");
    Differ(EXTRA_BODY[11], ANCHOR_LINE, 1);
    NoneEndsExcept(EXTRA_BODY, ANCHOR_LINE, 5, 11);
  }

  lemma ExtraHelperNotAnchor()
    ensures NoLineEnds(EXTRA_HELPER, ANCHOR_LINE)
  {
    AnchorEnd();
    ExtraBodyNotAnchor();
    var first := Head("allow_storage", "_p_storages, i_storage" + ", bundle_id, sandbox_id");
    var second := Head(EXTRA, "i_storage, bundle_id" + ", _sandbox_id");
    var call := Call(EXTRA, "i_storage, bundle_id" + ", sandbox_id");
    Differ(first, ANCHOR_LINE, 0);
    Differ(second, ANCHOR_LINE, 0);
    Differ(call, ANCHOR_LINE, 0);
    ClauseApart(first, [call], ANCHOR_LINE);
    ClauseApart(second, EXTRA_BODY, ANCHOR_LINE);
  }

  // ------------------------------------------------------------ the passes are well shaped

  lemma NoBreak(line: string, chars: string)
    requires FreeOf(line, chars) && NL in chars
    ensures NL !in line
  {
  }

  lemma NoBreaks(lines: seq<string>, chars: string)
    requires AllFree(lines, chars) && NL in chars
    ensures forall i :: 0 <= i < |lines| ==> NL !in lines[i]
  {
    forall i | 0 <= i < |lines| ensures NL !in lines[i] {
      NoBreak(lines[i], chars);
    }
  }

  lemma LineBorderFree(line: string)
    requires NL !in line
    ensures BorderFree(Unlines([line]))
  {
    var s := Unlines([line]);
    assert [line][1..] == [];
    assert s == line + [NL] + Unlines([]) == line + [NL];
    forall k | 0 < k < |s| ensures s[..k] != s[|s| - k..] {
      assert s[..k][k - 1] == line[k - 1] != NL;
      assert s[|s| - k..][k - 1] == NL;
    }
  }

  /** A check and a one-line call with a closing parenthesis make a good rule. */
  lemma CallRule(rule: Rule)
    requires |rule.allow| == 1 && rule.check != "" && rule.allow[0] != ""
    requires NL !in rule.check && NL !in rule.allow[0]
    requires rule.check[|rule.check| - 1] != ')' && rule.allow[0][|rule.allow[0]| - 1] == ')'
    ensures PlainRule(rule) && Removes(rule) && BorderFree(Unlines(rule.allow))
    ensures Removes(Inverse(rule))
  {
    Differ(rule.check, rule.allow[0], 0);
    assert rule.allow == [rule.allow[0]];
    LineBorderFree(rule.allow[0]);
  }

  lemma HeadHas(name: string, params: string)
    ensures Contains(Head(name, params), name)
  {
    var rest := "(" + params + ") if {";
    assert OccursAt(name, name, 0);
    ContainsInside("", name, rest, name);
    assert "" + name + rest == Head(name, params);
  }

  lemma CallHas(name: string, args: string)
    ensures Contains(Call(name, args), name)
  {
    var rest := "(" + args + ")";
    assert OccursAt(name, name, 0);
    ContainsInside("    ", name, rest, name);
    assert "    " + name + rest == Call(name, args);
  }

  lemma PidnsShape()
    ensures WellShaped(SANDBOX_PIDNS) && Contains(PIDNS_RULE.allow[0], PIDNS)
  {
    PidnsFree();
    PidnsTokens();
    assert NL in "\n$gm";
    NoBreaks(PIDNS_HELPER, "\n$gm");
    NoBreaks(PIDNS_RULE.allow, "\n$gm");
    NoBreak(PIDNS_RULE.check, "\n$gm");
    NoBreak(PIDNS, "\n$gm");
    CallRule(PIDNS_RULE);
    CallHas(PIDNS, "p_container, p_pidns, i_pidns");
    HeadHas(PIDNS, "_p_container, p_pidns, i_pidns");
    assert PIDNS_HELPER[1] == Head(PIDNS, "_p_container, p_pidns, i_pidns");
    AnchorEnd();
    Differ(Equals("p_pidns", "i_pidns"), ANCHOR_LINE, 0);
    FalseIsNotAnchor("i_pidns");
    PidnsHelperApart(ANCHOR_LINE);
  }

  lemma RootfsShape()
    ensures WellShaped(ROOTFS_PROPAGATION) && Contains(ROOTFS_RULE.allow[0], ROOTFS)
  {
    RootfsFree();
    RootfsTokens();
    RootfsEnds();
    assert NL in "\n$mbx" && NL in "\nmbe";
    NoBreaks(ROOTFS_HELPER, "\n$mbx");
    NoBreaks(ROOTFS_RULE.allow, "\nmbe");
    NoBreak(ROOTFS_RULE.check, "\nmbe");
    NoBreak(ROOTFS, "\n$mbx");
    CallRule(ROOTFS_RULE);
    CallHas(ROOTFS, "i_linux" + ".RootfsPropagation");
    HeadHas(ROOTFS, "rootfs_propagation");
    assert ROOTFS_HELPER[1] == Head(ROOTFS, "rootfs_propagation");
    AnchorEnd();
    NoneEnds(ROOTFS_HELPER, "spet", ANCHOR_LINE);
  }

  lemma SandboxShape()
    ensures WellShaped(SANDBOX_STORAGES) && Contains(SANDBOX_RULE.allow[0], SANDBOX)
  {
    SandboxPlain();
    SandboxNameTokens();
    assert NL in "\n$" && NL in "\n$x" && NL !in ['x'];
    NoBreaks(SANDBOX_HELPER, "\n$");
    NoBreaks(SANDBOX_RULE.allow, "\n$");
    NoBreak(SANDBOX_RULE.check, "\n$x");
    NoBreak(SANDBOX_BEFORE_X, "\n$x");
    NoBreak("_storage", "\n$x");
    CallRule(SANDBOX_RULE);
    CallHas(SANDBOX, "p_storage, i_storage");
    HeadHas(SANDBOX, "p_storage, i_storage");
    assert SANDBOX_HELPER[1] == Head(SANDBOX, "p_storage, i_storage");
    SandboxHelperNotAnchor();
  }

  lemma MountRuleShapes()
    ensures GoodCallRule(MOUNT_RULE) && GoodCallRule(FS_GROUP_RULE) && GoodCallRule(OPTIONS_RULE)
  {
    StorageRulesFree();
    assert NL in "\n$x";
    NoBreaks(MOUNT_RULE.allow, "\n$x");
    NoBreaks(FS_GROUP_RULE.allow, "\n$x");
    NoBreaks(OPTIONS_RULE.allow, "\n$x");
    NoBreak(MOUNT_RULE.check, "\n$x");
    NoBreak(FS_GROUP_RULE.check, "\n$x");
    NoBreak(OPTIONS_RULE.check, "\n$x");
    CallRule(MOUNT_RULE);
    CallRule(FS_GROUP_RULE);
    CallRule(OPTIONS_RULE);
  }

  /** A one-call rule leaves a line ending alone that differs from its check at one place
      and does not end in a parenthesis. */
  lemma CallRuleApart(rule: Rule, line: string, k: nat)
    requires |rule.allow| == 1 && rule.allow[0] != "" && rule.allow[0][|rule.allow[0]| - 1] == ')'
    requires line != "" && line[|line| - 1] != ')'
    requires k < |line| && k < |rule.check| && line[|line| - 1 - k] != rule.check[|rule.check| - 1 - k]
    ensures NoClash(rule, line)
  {
    Differ(rule.check, line, k);
    Differ(rule.allow[0], line, 0);
  }

  lemma MountChecksApart()
    ensures NoClash(MOUNT_RULE, FS_GROUP_RULE.check) && NoClash(MOUNT_RULE, OPTIONS_RULE.check)
  {
    CallRuleApart(MOUNT_RULE, FS_GROUP_RULE.check, 0);
    CallRuleApart(MOUNT_RULE, OPTIONS_RULE.check, 8);
  }

  lemma GroupChecksApart()
    ensures NoClash(FS_GROUP_RULE, MOUNT_RULE.check) && NoClash(FS_GROUP_RULE, OPTIONS_RULE.check)
  {
    CallRuleApart(FS_GROUP_RULE, MOUNT_RULE.check, 0);
    CallRuleApart(FS_GROUP_RULE, OPTIONS_RULE.check, 0);
  }

  lemma OptionChecksApart()
    ensures NoClash(OPTIONS_RULE, MOUNT_RULE.check) && NoClash(OPTIONS_RULE, FS_GROUP_RULE.check)
  {
    CallRuleApart(OPTIONS_RULE, MOUNT_RULE.check, 8);
    CallRuleApart(OPTIONS_RULE, FS_GROUP_RULE.check, 0);
  }

  /** Calls of two rules that differ near the end do not interfere either way. */
  lemma CallsApart(a: Rule, b: Rule, k: nat)
    requires |a.allow| == 1 && |b.allow| == 1 && a.check != "" && b.check != ""
    requires a.check[|a.check| - 1] != ')' && b.check[|b.check| - 1] != ')'
    requires a.allow[0] != "" && a.allow[0][|a.allow[0]| - 1] == ')'
    requires b.allow[0] != "" && b.allow[0][|b.allow[0]| - 1] == ')'
    requires k < |a.allow[0]| && k < |b.allow[0]|
    requires a.allow[0][|a.allow[0]| - 1 - k] != b.allow[0][|b.allow[0]| - 1 - k]
    ensures CallsDoNotClash(a, b)
  {
    Differ(a.allow[0], b.allow[0], k);
    Differ(a.check, b.allow[0], 0);
    Differ(b.check, a.allow[0], 0);
  }

  lemma ThreeRules(a: Rule, b: Rule, c: Rule)
    requires GoodCallRule(a) && GoodCallRule(b) && GoodCallRule(c)
    requires CallsDoNotClash(a, b) && CallsDoNotClash(a, c) && CallsDoNotClash(b, c)
    ensures SuffixFree([a, b, c])
  {
    var rules := [a, b, c];
    assert rules[0] == a && rules[1] == b && rules[2] == c;
    forall i, j | 0 <= i < j < 3 ensures CallsDoNotClash(rules[i], rules[j]) {
      if i == 0 && j == 1 {
      } else if i == 0 {
        assert j == 2;
      } else {
        assert i == 1 && j == 2;
      }
    }
  }

  lemma MountCallsClash()
    ensures CallsDoNotClash(MOUNT_RULE, FS_GROUP_RULE)
    ensures CallsDoNotClash(MOUNT_RULE, OPTIONS_RULE)
  {
    CallsApart(MOUNT_RULE, FS_GROUP_RULE, 1);
    CallsApart(MOUNT_RULE, OPTIONS_RULE, 1);
  }

  lemma StorageCallsClash()
    ensures CallsDoNotClash(FS_GROUP_RULE, OPTIONS_RULE)
  {
    CallsApart(FS_GROUP_RULE, OPTIONS_RULE, 22);
  }

  lemma MountCallsApart()
    ensures SuffixFree(STORAGE_MOUNTS.rules)
  {
    MountRuleShapes();
    MountCallsClash();
    StorageCallsClash();
    ThreeRules(MOUNT_RULE, FS_GROUP_RULE, OPTIONS_RULE);
  }

  lemma ThreeRulePass(p: Pass, a: Rule, b: Rule, c: Rule, k: nat)
    requires p.rules == [a, b, c] && GoodCallRule(a) && GoodCallRule(b) && GoodCallRule(c)
    requires NoClash(a, b.check) && NoClash(a, c.check) && NoClash(b, a.check)
    requires NoClash(b, c.check) && NoClash(c, a.check) && NoClash(c, b.check)
    requires p.marker != [] && NL !in p.marker
    requires forall i :: 0 <= i < |p.helper| ==> NL !in p.helper[i]
    requires k < |p.helper| && Contains(p.helper[k], p.marker) && NoLineEnds(p.helper, ANCHOR_LINE)
    ensures WellShaped(p)
  {
    assert p.rules[0] == a && p.rules[1] == b && p.rules[2] == c;
  }

  lemma StorageLines()
    ensures forall i :: 0 <= i < |STORAGE_HELPER| ==> NL !in STORAGE_HELPER[i]
    ensures NoLineEnds(STORAGE_HELPER, ANCHOR_LINE)
  {
    StorageFree();
    StorageEnds();
    assert NL in "\n$x";
    NoBreaks(STORAGE_HELPER, "\n$x");
    AnchorEnd();
    NoneEnds(STORAGE_HELPER, "et", ANCHOR_LINE);
  }

  lemma StorageMarker()
    ensures MOUNT != [] && NL !in MOUNT && Contains(MOUNT_RULE.allow[0], MOUNT)
    ensures 1 < |STORAGE_HELPER| && Contains(STORAGE_HELPER[1], MOUNT)
  {
    StorageNames();
    assert NL in "\n$x";
    NoBreak(MOUNT, "\n$x");
    CallHas(MOUNT, "p_mount, i_mount");
    HeadHas(MOUNT, "p_mount, i_mount");
    assert STORAGE_HELPER[1] == Head(MOUNT, "p_mount, i_mount");
  }

  lemma StorageShape()
    ensures WellShaped(STORAGE_MOUNTS)
  {
    MountRuleShapes();
    MountChecksApart();
    GroupChecksApart();
    OptionChecksApart();
    StorageLines();
    StorageMarker();
    ThreeRulePass(STORAGE_MOUNTS, MOUNT_RULE, FS_GROUP_RULE, OPTIONS_RULE, 1);
  }

  /** Three lines of which only the last ends in its character make a border-free text. */
  lemma ThreeLineBorderFree(a: string, b: string, c: string)
    requires NL !in a && NL !in b && NL !in c && a != "" && b != "" && c != ""
    requires a[|a| - 1] != c[|c| - 1] && b[|b| - 1] != c[|c| - 1]
    ensures BorderFree(Unlines([a, b, c]))
  {
    var s := Unlines([a, b, c]);
    assert [a, b, c][1..] == [b, c] && [b, c][1..] == [c] && [c][1..] == [];
    assert Unlines([c]) == c + [NL] + [] == c + [NL];
    assert Unlines([b, c]) == b + [NL] + (c + [NL]);
    assert s == a + [NL] + (b + [NL] + (c + [NL]));
    var m, n := |a|, |a| + 1 + |b|;
    assert s[m] == NL && s[n] == NL && s[|s| - 1] == NL;
    assert s[m - 1] == a[|a| - 1] && s[n - 1] == b[|b| - 1] && s[|s| - 2] == c[|c| - 1];
    forall i | 0 <= i < |s| - 1 && i != m && i != n ensures s[i] != NL {
      if i < m {
        assert s[i] == a[i];
      } else if i < n {
        assert s[i] == b[i - m - 1];
      } else {
        assert s[i] == c[i - n - 1];
      }
    }
    forall k | 0 < k < |s| ensures s[..k] != s[|s| - k..] {
      if k - 1 == m || k - 1 == n {
        assert s[..k][k - 2] == s[k - 2] && s[|s| - k..][k - 2] == s[|s| - 2];
      } else {
        assert s[..k][k - 1] == s[k - 1] && s[|s| - k..][k - 1] == s[|s| - 1];
      }
    }
  }

  lemma ExtraRemoves()
    ensures Removes(EXTRA_RULE)
  {
    Differ(EXTRA_RULE.check, EXTRA_RULE.allow[0], 0);
    Differ(EXTRA_RULE.check, EXTRA_RULE.allow[1], 0);
    Differ(EXTRA_RULE.check, EXTRA_RULE.allow[2], 6);
  }

  lemma ExtraBorderFree()
    ensures PlainRule(EXTRA_RULE) && BorderFree(Unlines(EXTRA_RULE.allow))
  {
    ExtraRuleFree();
    assert NL in "\n$";
    NoBreaks(EXTRA_RULE.allow, "\n$");
    NoBreak(EXTRA_RULE.check, "\n$");
    var a, b, c := EXTRA_RULE.allow[0], EXTRA_RULE.allow[1], EXTRA_RULE.allow[2];
    assert EXTRA_RULE.allow == [a, b, c];
    ThreeLineBorderFree(a, b, c);
  }

  lemma ExtraMarker()
    ensures Contains(EXTRA_RULE.allow[0], EXTRA)
    ensures |EXTRA_HELPER| > 2 && Contains(EXTRA_HELPER[2], EXTRA)
  {
    assert OccursAt(EXTRA, EXTRA, 0);
    var before := "    " + "cap_extra_storage_count" + " := count([s | s" + " := i_storages[_]; ";
    var after := "(s, bundle_id" + ", sandbox_id)])";
    ContainsInside(before, EXTRA, after, EXTRA);
    assert EXTRA_RULE.allow[0] == before + EXTRA + after;
    CallHas(EXTRA, "i_storage, bundle_id" + ", sandbox_id");
    assert EXTRA_HELPER[2] == Call(EXTRA, "i_storage, bundle_id" + ", sandbox_id");
  }

  lemma OneRulePass(p: Pass, rule: Rule, k: nat)
    requires p.rules == [rule] && PlainRule(rule) && Removes(rule) && BorderFree(Unlines(rule.allow))
    requires p.marker != [] && NL !in p.marker
    requires forall i :: 0 <= i < |p.helper| ==> NL !in p.helper[i]
    requires k < |p.helper| && Contains(p.helper[k], p.marker) && NoLineEnds(p.helper, ANCHOR_LINE)
    ensures WellShaped(p)
  {
  }

  lemma ExtraShape()
    ensures WellShaped(EXTRA_STORAGES) && Contains(EXTRA_RULE.allow[0], EXTRA)
  {
    ExtraRemoves();
    ExtraBorderFree();
    ExtraMarker();
    ExtraFree();
    ExtraNameTokens();
    assert NL in "\n$" && NL !in ['x'];
    NoBreak(EXTRA_BEFORE_X, "\n$");
    NoBreak("tra_storage", "\n$");
    NoBreaks(EXTRA_HELPER, "\n$");
    ExtraHelperNotAnchor();
    OneRulePass(EXTRA_STORAGES, EXTRA_RULE, 2);
  }

  lemma PassesInOrder()
    ensures PASSES[0] == SANDBOX_PIDNS && PASSES[1] == ROOTFS_PROPAGATION
    ensures PASSES[2] == STORAGE_MOUNTS && PASSES[3] == SANDBOX_STORAGES
    ensures PASSES[4] == EXTRA_STORAGES
  {
  }

  lemma AllShapes()
    ensures forall k :: 0 <= k < 5 ==> WellShaped(PASSES[k])
  {
    PassesInOrder();
    forall k | 0 <= k < 5 ensures WellShaped(PASSES[k]) {
      if k == 0 {
        PidnsShape();
      } else if k == 1 {
        RootfsShape();
      } else if k == 2 {
        StorageShape();
      } else if k == 3 {
        SandboxShape();
      } else {
        ExtraShape();
      }
    }
  }

  // --------------------------------------------------------- passes leave each other alone

  /** The first pass changes nothing that decides whether the second fires. */
  ghost predicate Leaves(p: Pass, q: Pass) {
    && LeavesWord(p, q.marker)
    && forall i :: 0 <= i < |q.rules| ==> LeavesLine(p, q.rules[i].check)
  }

  predicate PlainWord(word: string) {
    word != [] && ' ' !in word && NL !in word
  }

  lemma PlainMarkers()
    ensures PlainWord(ROOTFS) && PlainWord(MOUNT)
  {
  }

  lemma MorePlainMarkers()
    ensures PlainWord(SANDBOX) && PlainWord(EXTRA)
  {
  }

  lemma MarkerLetters()
    ensures 'g' in ROOTFS && 'm' in MOUNT
    ensures 'g' in SANDBOX && 'b' in SANDBOX && 'x' in SANDBOX
    ensures 'g' in EXTRA && 'x' in EXTRA && 'e' in EXTRA
  {
    assert ROOTFS[22] == 'g' && MOUNT[10] == 'm';
    assert SANDBOX[14] == 'b' && SANDBOX[16] == 'x' && SANDBOX[23] == 'g';
    assert EXTRA[10] == 'e' && EXTRA[11] == 'x' && EXTRA[21] == 'g';
  }

  lemma RuleLeavesWord(rule: Rule, chars: string, c: char, word: string)
    requires FreeOf(rule.check, chars) && AllFree(rule.allow, chars) && c in chars && c in word
    requires PlainWord(word) && rule.check != "" && rule.check[0] == ' '
    requires rule.allow != [] && rule.allow[0] != "" && rule.allow[0][0] == ' '
    ensures NoWordClash(rule, word)
  {
    WordAbsent(rule.check, chars, c, word);
    WordAbsentAll(rule.allow, chars, c, word);
  }

  lemma PidnsLeavesWord(c: char, word: string)
    requires c in "gm" && c in word && PlainWord(word)
    ensures LeavesWord(SANDBOX_PIDNS, word)
  {
    PidnsFree();
    assert c in "\n$gm";
    WordAbsentAll(PIDNS_HELPER, "\n$gm", c, word);
    RuleLeavesWord(PIDNS_RULE, "\n$gm", c, word);
  }

  lemma PidnsLeavesLine(line: string, k: nat, m: nat)
    requires NL !in line && line != "" && line[|line| - 1] !in "{})\""
    requires k < |line| && k < 7 && line[|line| - 1 - k] != "i_pidns"[6 - k]
    requires m < |line| && m < 5 && line[|line| - 1 - m] != "false"[4 - m]
    ensures LeavesLine(SANDBOX_PIDNS, line)
  {
    Differ(Equals("p_pidns", "i_pidns"), line, k);
    Differ(Equals("i_pidns", "false"), line, m);
    PidnsHelperApart(line);
    CallRuleApart(PIDNS_RULE, line, k);
  }

  lemma RootfsLeaves(line: string)
    requires NL !in line && line != "" && line[|line| - 1] in "spet"
    ensures LeavesLine(ROOTFS_PROPAGATION, line)
  {
    RootfsEnds();
    NoneEnds(ROOTFS_HELPER, "spet", line);
    CallRuleApart(ROOTFS_RULE, line, 0);
  }

  lemma StorageLeavesLine(line: string)
    requires NL !in line && line != "" && line[|line| - 1] in "et"
    ensures LeavesLine(STORAGE_MOUNTS, line)
  {
    StorageEnds();
    NoneEnds(STORAGE_HELPER, "et", line);
    CallRuleApart(MOUNT_RULE, line, 0);
    CallRuleApart(FS_GROUP_RULE, line, 0);
    CallRuleApart(OPTIONS_RULE, line, 0);
  }

  lemma StorageLeavesWord(word: string)
    requires 'x' in word && PlainWord(word)
    ensures LeavesWord(STORAGE_MOUNTS, word)
  {
    StorageFree();
    StorageRulesFree();
    assert 'x' in "\n$x";
    WordAbsentAll(STORAGE_HELPER, "\n$x", 'x', word);
    RuleLeavesWord(MOUNT_RULE, "\n$x", 'x', word);
    RuleLeavesWord(FS_GROUP_RULE, "\n$x", 'x', word);
    RuleLeavesWord(OPTIONS_RULE, "\n$x", 'x', word);
  }

  lemma RootfsLeavesWord(c: char, d: char, word: string)
    requires c in "mbx" && d in "mbe" && c in word && d in word && PlainWord(word)
    ensures LeavesWord(ROOTFS_PROPAGATION, word)
  {
    RootfsFree();
    assert c in "\n$mbx" && d in "\nmbe";
    WordAbsentAll(ROOTFS_HELPER, "\n$mbx", c, word);
    RuleLeavesWord(ROOTFS_RULE, "\nmbe", d, word);
  }

  lemma SandboxLeavesExtra()
    ensures Leaves(SANDBOX_STORAGES, EXTRA_STORAGES)
  {
    ExtraBorderFree();
    SandboxLinesHaveNoExtra();
    SandboxHeadsHaveNoExtra();
    SandboxEnds();
    MorePlainMarkers();
    MarkerLetters();
    SandboxPlain();
    var line := EXTRA_RULE.check;
    NoneEnds(SANDBOX_HELPER, "t", line);
    CallRuleApart(SANDBOX_RULE, line, 0);
    assert 'x' in "\n$x";
    WordAbsent(SANDBOX_RULE.check, "\n$x", 'x', EXTRA);
  }

  lemma PlainChecks()
    ensures PlainRule(ROOTFS_RULE) && PlainRule(MOUNT_RULE) && PlainRule(FS_GROUP_RULE)
    ensures PlainRule(OPTIONS_RULE) && PlainRule(SANDBOX_RULE) && PlainRule(EXTRA_RULE)
  {
    RootfsShape();
    MountRuleShapes();
    SandboxShape();
    ExtraBorderFree();
    assert PlainRule(ROOTFS_PROPAGATION.rules[0]) && PlainRule(SANDBOX_STORAGES.rules[0]);
  }

  lemma OneRuleLeaves(p: Pass, q: Pass, rule: Rule)
    requires q.rules == [rule] && LeavesWord(p, q.marker) && LeavesLine(p, rule.check)
    ensures Leaves(p, q)
  {
  }

  lemma ThreeRuleLeaves(p: Pass, q: Pass, a: Rule, b: Rule, c: Rule)
    requires q.rules == [a, b, c] && LeavesWord(p, q.marker)
    requires LeavesLine(p, a.check) && LeavesLine(p, b.check) && LeavesLine(p, c.check)
    ensures Leaves(p, q)
  {
    assert q.rules[0] == a && q.rules[1] == b && q.rules[2] == c;
  }

  lemma PidnsLeavesWords()
    ensures LeavesWord(SANDBOX_PIDNS, ROOTFS) && LeavesWord(SANDBOX_PIDNS, MOUNT)
    ensures LeavesWord(SANDBOX_PIDNS, SANDBOX) && LeavesWord(SANDBOX_PIDNS, EXTRA)
  {
    PlainMarkers();
    MorePlainMarkers();
    MarkerLetters();
    PidnsLeavesWord('g', ROOTFS);
    PidnsLeavesWord('m', MOUNT);
    PidnsLeavesWord('g', SANDBOX);
    PidnsLeavesWord('g', EXTRA);
  }

  lemma PidnsLeavesLines()
    ensures LeavesLine(SANDBOX_PIDNS, ROOTFS_RULE.check) && LeavesLine(SANDBOX_PIDNS, SANDBOX_RULE.check)
    ensures LeavesLine(SANDBOX_PIDNS, EXTRA_RULE.check)
  {
    PlainChecks();
    PidnsLeavesLine(ROOTFS_RULE.check, 0, 0);
    PidnsLeavesLine(SANDBOX_RULE.check, 0, 1);
    PidnsLeavesLine(EXTRA_RULE.check, 0, 0);
  }

  lemma PidnsLeavesMountLines()
    ensures LeavesLine(SANDBOX_PIDNS, MOUNT_RULE.check) && LeavesLine(SANDBOX_PIDNS, FS_GROUP_RULE.check)
    ensures LeavesLine(SANDBOX_PIDNS, OPTIONS_RULE.check)
  {
    PlainChecks();
    PidnsLeavesLine(MOUNT_RULE.check, 2, 0);
    PidnsLeavesLine(FS_GROUP_RULE.check, 0, 0);
    PidnsLeavesLine(OPTIONS_RULE.check, 2, 0);
  }

  lemma PidnsLeavesOthers()
    ensures Leaves(SANDBOX_PIDNS, ROOTFS_PROPAGATION) && Leaves(SANDBOX_PIDNS, STORAGE_MOUNTS)
    ensures Leaves(SANDBOX_PIDNS, SANDBOX_STORAGES) && Leaves(SANDBOX_PIDNS, EXTRA_STORAGES)
  {
    PidnsLeavesWords();
    PidnsLeavesLines();
    PidnsLeavesMountLines();
    OneRuleLeaves(SANDBOX_PIDNS, ROOTFS_PROPAGATION, ROOTFS_RULE);
    ThreeRuleLeaves(SANDBOX_PIDNS, STORAGE_MOUNTS, MOUNT_RULE, FS_GROUP_RULE, OPTIONS_RULE);
    OneRuleLeaves(SANDBOX_PIDNS, SANDBOX_STORAGES, SANDBOX_RULE);
    OneRuleLeaves(SANDBOX_PIDNS, EXTRA_STORAGES, EXTRA_RULE);
  }

  lemma RootfsLeavesWords()
    ensures LeavesWord(ROOTFS_PROPAGATION, MOUNT) && LeavesWord(ROOTFS_PROPAGATION, SANDBOX)
    ensures LeavesWord(ROOTFS_PROPAGATION, EXTRA)
  {
    PlainMarkers();
    MorePlainMarkers();
    MarkerLetters();
    RootfsLeavesWord('m', 'm', MOUNT);
    RootfsLeavesWord('b', 'b', SANDBOX);
    RootfsLeavesWord('x', 'e', EXTRA);
  }

  lemma RootfsLeavesLines()
    ensures LeavesLine(ROOTFS_PROPAGATION, MOUNT_RULE.check)
    ensures LeavesLine(ROOTFS_PROPAGATION, FS_GROUP_RULE.check)
    ensures LeavesLine(ROOTFS_PROPAGATION, OPTIONS_RULE.check)
  {
    PlainChecks();
    RootfsLeaves(MOUNT_RULE.check);
    RootfsLeaves(FS_GROUP_RULE.check);
    RootfsLeaves(OPTIONS_RULE.check);
  }

  lemma RootfsLeavesMoreLines()
    ensures LeavesLine(ROOTFS_PROPAGATION, SANDBOX_RULE.check)
    ensures LeavesLine(ROOTFS_PROPAGATION, EXTRA_RULE.check)
  {
    PlainChecks();
    RootfsLeaves(SANDBOX_RULE.check);
    RootfsLeaves(EXTRA_RULE.check);
  }

  lemma RootfsLeavesOthers()
    ensures Leaves(ROOTFS_PROPAGATION, STORAGE_MOUNTS) && Leaves(ROOTFS_PROPAGATION, SANDBOX_STORAGES)
    ensures Leaves(ROOTFS_PROPAGATION, EXTRA_STORAGES)
  {
    RootfsLeavesWords();
    RootfsLeavesLines();
    RootfsLeavesMoreLines();
    ThreeRuleLeaves(ROOTFS_PROPAGATION, STORAGE_MOUNTS, MOUNT_RULE, FS_GROUP_RULE, OPTIONS_RULE);
    OneRuleLeaves(ROOTFS_PROPAGATION, SANDBOX_STORAGES, SANDBOX_RULE);
    OneRuleLeaves(ROOTFS_PROPAGATION, EXTRA_STORAGES, EXTRA_RULE);
  }

  lemma StorageLeavesOthers()
    ensures Leaves(STORAGE_MOUNTS, SANDBOX_STORAGES) && Leaves(STORAGE_MOUNTS, EXTRA_STORAGES)
  {
    PlainChecks();
    MorePlainMarkers();
    MarkerLetters();
    StorageLeavesWord(SANDBOX);
    StorageLeavesWord(EXTRA);
    StorageLeavesLine(SANDBOX_RULE.check);
    StorageLeavesLine(EXTRA_RULE.check);
    OneRuleLeaves(STORAGE_MOUNTS, SANDBOX_STORAGES, SANDBOX_RULE);
    OneRuleLeaves(STORAGE_MOUNTS, EXTRA_STORAGES, EXTRA_RULE);
  }

  lemma EarlierLeavesLater(k: nat, j: nat)
    requires k < j < 5
    ensures Leaves(PASSES[k], PASSES[j])
  {
    PassesInOrder();
    if k == 0 {
      PidnsLeavesOthers();
    } else if k == 1 {
      RootfsLeavesOthers();
    } else if k == 2 {
      StorageLeavesOthers();
    } else {
      SandboxLeavesExtra();
    }
  }

  // ---------------------------------------------------------------------- main results

  lemma {:induction false} StageKeepsFiring(text: string, k: nat, j: nat)
    requires k <= j < 5
    ensures Fires(PASSES[j], Stage(text, k)) <==> Fires(PASSES[j], text)
  {
    if k == 0 {
    } else {
      StageKeepsFiring(text, k - 1, j);
      AllShapes();
      EarlierLeavesLater(k - 1, j);
      LeavesFiring(PASSES[k - 1], PASSES[j], Stage(text, k - 1));
    }
  }

  /** Each of the five passes fires on the output of the passes before it exactly when it
      would fire on the original text. */
  lemma PassesFireIndependently(text: string, j: nat)
    requires j < 5
    ensures Fires(PASSES[j], Stage(text, j)) <==> Fires(PASSES[j], text)
  {
    StageKeepsFiring(text, j, j);
  }

  /** Each of the five passes is idempotent, and where it fires it leaves no check line
      outside the helper it inserts. */
  lemma PassesAreIdempotentAndComplete(text: string, j: nat, i: nat)
    requires j < 5 && i < |PASSES[j].rules|
    ensures Apply(PASSES[j], Apply(PASSES[j], text)) == Apply(PASSES[j], text)
    ensures Fires(PASSES[j], text) ==>
              !HasLine(RemoveHelper(Apply(PASSES[j], text), Unlines(PASSES[j].helper)), PASSES[j].rules[i].check)
  {
    AllShapes();
    Idempotent(PASSES[j], text);
    if Fires(PASSES[j], text) {
      NoCheckOutsideHelper(PASSES[j], text, i);
    }
  }

  lemma MarkersInCalls()
    ensures Contains(PIDNS_RULE.allow[0], PIDNS) && Contains(ROOTFS_RULE.allow[0], ROOTFS)
    ensures Contains(SANDBOX_RULE.allow[0], SANDBOX) && Contains(EXTRA_RULE.allow[0], EXTRA)
  {
    PidnsShape();
    RootfsShape();
    SandboxShape();
    ExtraMarker();
  }

  /** The PID-namespace, root-filesystem, sandbox-storage and extra-storage passes are
      invertible on every text they fire on, with or without the anchor line. */
  lemma SingleRulePassesInvertible(text: string, j: nat)
    requires j in {0, 1, 3, 4} && Fires(PASSES[j], text)
    ensures forall i :: 0 <= i < |PASSES[j].rules| ==> PASSES[j].rules[i].allow != []
    ensures Undo(PASSES[j], Apply(PASSES[j], text)) == text
  {
    AllShapes();
    MarkersInCalls();
    assert |PASSES[j].rules| == 1;
    Invertible(PASSES[j], text);
  }

  /** The storage-mounts pass looks for one of its three calls only. It can be undone
      exactly when the other two calls are absent from the text beforehand. */
  lemma StorageMountsInvertibleExactly(text: string)
    requires Fires(STORAGE_MOUNTS, text)
    ensures forall i :: 0 <= i < |STORAGE_MOUNTS.rules| ==> STORAGE_MOUNTS.rules[i].allow != []
    ensures Undo(STORAGE_MOUNTS, Apply(STORAGE_MOUNTS, text)) == text <==>
            && !HasLine(text, FS_GROUP_RULE.allow[0])
            && !HasLine(text, OPTIONS_RULE.allow[0])
  {
    StorageShape();
    StorageMarker();
    MountCallsApart();
    InvertibleExactly(STORAGE_MOUNTS, text);
    MarkerInCall(text, MOUNT_RULE, MOUNT);
    UndoIsInverse(text, MOUNT_RULE);
    assert STORAGE_MOUNTS.rules[0] == MOUNT_RULE && STORAGE_MOUNTS.rules[1] == FS_GROUP_RULE;
    assert STORAGE_MOUNTS.rules[2] == OPTIONS_RULE;
  }

  lemma MountCheckTokens()
    ensures FrameFree("\nl") && FreeOf("p_mount.options", "\nl") && FreeOf("i_mount.options", "\nl")
  {
  }

  lemma OptionsCallTokens()
    ensures FrameFree("\nm") && FreeOf(OPTIONS, "\nm") && FreeOf("p_storage, i_storage", "\nm")
  {
  }

  lemma MountLetters()
    ensures 'l' in MOUNT && 'm' in MOUNT
  {
    assert MOUNT[1] == 'l' && MOUNT[10] == 'm';
  }

  /** A text that the storage-mounts pass fires on and that undoing does not give back: a mount
      check together with a call that the pass also writes. */
  lemma StorageMountsNotInvertible()
    ensures var text := Unlines([MOUNT_RULE.check, OPTIONS_RULE.allow[0]]);
            && Fires(STORAGE_MOUNTS, text)
            && (forall i :: 0 <= i < |STORAGE_MOUNTS.rules| ==> STORAGE_MOUNTS.rules[i].allow != [])
            && Undo(STORAGE_MOUNTS, Apply(STORAGE_MOUNTS, text)) != text
  {
    var lines := [MOUNT_RULE.check, OPTIONS_RULE.allow[0]];
    NoMarkerInLines();
    PlainMarkers();
    TextLines(lines, MOUNT, 0);
    TextLines(lines, MOUNT, 1);
    assert STORAGE_MOUNTS.rules[0] == MOUNT_RULE;
    StorageMountsInvertibleExactly(Unlines(lines));
  }

  lemma NoMarkerInLines()
    ensures NL !in MOUNT_RULE.check && NL !in OPTIONS_RULE.allow[0]
    ensures !Contains(MOUNT_RULE.check, MOUNT) && !Contains(OPTIONS_RULE.allow[0], MOUNT)
  {
    MountLetters();
    MountCheckTokens();
    OptionsCallTokens();
    EqualsFree("p_mount.options", "i_mount.options", "\nl");
    CallFree(OPTIONS, "p_storage, i_storage", "\nm");
    assert 'l' in "\nl" && 'm' in "\nm" && NL in "\nl" && NL in "\nm";
    WordAbsent(MOUNT_RULE.check, "\nl", 'l', MOUNT);
    WordAbsent(OPTIONS_RULE.allow[0], "\nm", 'm', MOUNT);
  }

  /** A text holds each of its lines, and a word only where a line does. */
  lemma TextLines(lines: seq<string>, word: string, k: nat)
    requires k < |lines| && word != "" && NL !in word && forall i :: 0 <= i < |lines| ==> NL !in lines[i]
    ensures HasLine(Unlines(lines), lines[k])
    ensures Contains(Unlines(lines), word) ==> exists i :: 0 <= i < |lines| && Contains(lines[i], word)
  {
    assert Unlines(lines) + "" == Unlines(lines);
    LinesOf(lines, "", lines[k]);
    assert EndsWith(lines[k], lines[k]);
    WordsOf(lines, "", word);
    NoWordInNothing(word);
  }

  lemma NoWordInNothing(word: string)
    requires word != ""
    ensures !Contains("", word)
  {
  }
}
