/** The five passes one after the other (signing-service/src/genpolicy.rs,
    normalize_cap_generated_policy): after the chain none of them fires any more. */
module PolicyChain {
  import opened TextRewriting
  import opened PolicyLines
  import opened PolicyConstants
  import opened PolicyPasses
  import opened PolicyFacts

  // -------------------------------------------------------- what a pass never does

  /** No rule of the pass can remove the word. */
  ghost predicate KeepsWord(p: Pass, word: string) {
    && word != [] && ' ' !in word && NL !in word
    && forall i :: 0 <= i < |p.rules| ==>
         p.rules[i].check != [] && p.rules[i].check[0] == ' ' && !Contains(p.rules[i].check, word)
  }

  lemma {:induction false} RuleKeepsPresent(text: string, rule: Rule, word: string)
    requires PlainRule(rule) && word != [] && ' ' !in word && NL !in word
    requires rule.check[0] == ' ' && !Contains(rule.check, word)
    ensures Contains(text, word) ==> Contains(ApplyRule(text, rule), word)
    decreases |text|
  {
    var r := Unlines(rule.allow);
    if NL !in text {
      ReplaceNoLine(text, rule.check, r);
    } else {
      var a, rest := FirstLine(text);
      RuleKeepsPresent(rest, rule, word);
      ReplaceLine(a, rest, rule.check, r);
      ContainsBeside(a, NL, rest, word);
      LineKeepsPresent(a, ApplyRule(rest, rule), rule, word);
    }
  }

  lemma LineKeepsPresent(a: string, out: string, rule: Rule, word: string)
    requires PlainRule(rule) && word != [] && ' ' !in word && NL !in word
    requires rule.check[0] == ' ' && !Contains(rule.check, word)
    ensures Contains(a, word) || Contains(out, word) ==>
              Contains(RewriteLine(a, rule.check, Unlines(rule.allow)) + out, word)
  {
    var line := RewriteLine(a, rule.check, Unlines(rule.allow));
    if Contains(out, word) {
      ContainsInside(line, out, [], word);
      assert line + out + [] == line + out;
    }
    if Contains(a, word) {
      var before := if EndsWith(a, rule.check) then a[..|a| - |rule.check|] else a;
      if EndsWith(a, rule.check) {
        assert a == before + rule.check;
        WordBeforeSpace(before, rule.check, word);
      }
      var behind := line[|before|..] + out;
      assert line[..|before|] == before;
      ContainsInside([], before, behind, word);
      assert [] + before + behind == line + out;
    }
  }

  lemma {:induction false} RulesKeepPresent(text: string, rules: seq<Rule>, word: string)
    requires word != [] && ' ' !in word && NL !in word
    requires forall i :: 0 <= i < |rules| ==>
               PlainRule(rules[i]) && rules[i].check[0] == ' ' && !Contains(rules[i].check, word)
    ensures Contains(text, word) ==> Contains(ApplyRules(text, rules), word)
    decreases rules
  {
    if rules == [] {
    } else {
      RuleKeepsPresent(text, rules[0], word);
      RulesKeepPresent(ApplyRule(text, rules[0]), rules[1..], word);
    }
  }

  /** A pass that keeps the other's marker and leaves its check lines alone never makes it fire. */
  lemma NeverMakesFire(p: Pass, q: Pass, text: string)
    requires WellShaped(p) && KeepsWord(p, q.marker)
    requires forall i :: 0 <= i < |q.rules| ==> LeavesLine(p, q.rules[i].check)
    requires !Fires(q, text)
    ensures !Fires(q, Apply(p, text))
  {
    if Fires(p, text) {
      var rewritten := ApplyRules(text, p.rules);
      RulesKeepPresent(text, p.rules, q.marker);
      InsertKeepsWord(rewritten, ANCHOR_LINE, p.helper, q.marker);
      forall i | 0 <= i < |q.rules|
        ensures HasLine(Apply(p, text), q.rules[i].check) <==> HasLine(text, q.rules[i].check)
      {
        RulesKeepLine(text, p.rules, q.rules[i].check);
        InsertKeepsLine(rewritten, ANCHOR_LINE, p.helper, q.rules[i].check);
      }
    }
  }

  // ------------------------------------------- characters counted from the line end

  /** Every line is too short for a character at this distance from its end, or has another. */
  predicate OtherAt(lines: seq<string>, k: nat, c: char) {
    forall i :: 0 <= i < |lines| ==> |lines[i]| <= k || lines[i][|lines[i]| - 1 - k] != c
  }

  lemma OtherApart(lines: seq<string>, k: nat, line: string)
    requires k < |line| && OtherAt(lines, k, line[|line| - 1 - k])
    ensures NoLineEnds(lines, line)
  {
    forall i | 0 <= i < |lines| ensures !EndsWith(lines[i], line) {
      if k < |lines[i]| {
        Differ(lines[i], line, k);
      }
    }
  }

  lemma ClauseOther(head: string, body: seq<string>, k: nat, c: char)
    requires OtherAt([head], k, c) && OtherAt(body, k, c) && c != '}'
    ensures OtherAt(Clause(head, body), k, c)
  {
    var lines := Clause(head, body);
    assert [head][0] == head;
    forall i | 0 <= i < |lines| ensures |lines[i]| <= k || lines[i][|lines[i]| - 1 - k] != c {
      if 2 <= i < 2 + |body| {
        assert lines[i] == body[i - 2];
      }
    }
  }

  lemma BothOther(a: seq<string>, b: seq<string>, k: nat, c: char)
    requires OtherAt(a, k, c) && OtherAt(b, k, c)
    ensures OtherAt(a + b, k, c)
  {
  }

  // ----------------------------------------------------------------- storage mounts

  lemma StorageHeads()
    ensures OtherAt([Head(MOUNT, "p_mount, i_mount")], 2, 'd') && OtherAt([Head(MOUNT, "p_mount, i_mount")], 6, 'n')
    ensures OtherAt([Head(FS_GROUP, "p_storage, i_storage")], 2, 'd')
    ensures OtherAt([Head(FS_GROUP, "p_storage, i_storage")], 6, 'n')
    ensures OtherAt([Head(OPTIONS, "p_storage, i_storage")], 2, 'd')
    ensures OtherAt([Head(OPTIONS, "p_storage, i_storage")], 6, 'n')
  {
  }

  lemma StorageBodies(k: nat, c: char)
    requires (k == 2 && c == 'd') || (k == 6 && c == 'n')
    ensures OtherAt([Equals("p_mount.options", "i_mount.options")], k, c)
    ensures OtherAt([Equals("p_storage.fs_group", "i_storage.fs_group")], k, c)
    ensures OtherAt([Equals("p_storage.options", "i_storage.options")], k, c)
    ensures OtherAt(FSGID_BODY, k, c)
  {
  }

  lemma MountClauseOther(policy: string, input: string, k: nat, c: char)
    requires (k == 2 && c == 'd') || (k == 6 && c == 'n')
    requires |policy| > 6 && policy[|policy| - 1 - k] != c && |input| > 6 && input[|input| - 1 - k] != c
    ensures OtherAt(MountClause(policy, input), k, c)
  {
    StorageHeads();
    ClauseOther(Head(MOUNT, "p_mount, i_mount"),
                [Equals("p_mount.type_", "\"bind\""), Equals("p_mount.source", "\"\""),
                 Equals("p_mount.options", policy), Equals("i_mount.options", input)], k, c);
  }

  lemma StorageOther(k: nat, c: char)
    requires (k == 2 && c == 'd') || (k == 6 && c == 'n')
    ensures OtherAt(STORAGE_HELPER, k, c)
  {
    StorageHeads();
    StorageBodies(k, c);
    ClauseOther(Head(MOUNT, "p_mount, i_mount"), [Equals("p_mount.options", "i_mount.options")], k, c);
    ClauseOther(Head(FS_GROUP, "p_storage, i_storage"), [Equals("p_storage.fs_group", "i_storage.fs_group")], k, c);
    ClauseOther(Head(OPTIONS, "p_storage, i_storage"), [Equals("p_storage.options", "i_storage.options")], k, c);
    ClauseOther(Head(FS_GROUP, "p_storage, i_storage"), FSGID_BODY, k, c);
    ClauseOther(Head(OPTIONS, "p_storage, i_storage"), FSGID_BODY, k, c);
    MountClauseOther("[\"rbind\", \"rprivate\"" + ", \"rw\"]", "[\"rbind\", \"rslave\"" + ", \"rw\"]", k, c);
    MountClauseOther("[\"rbind\", \"rprivate\"" + ", \"ro\"]", "[\"rbind\", \"rslave\"" + ", \"ro\"]", k, c);
    MountClauseOther("[\"rbind\", \"rprivate\"" + ", \"rw\"]", "[\"rbind\", \"rshared\"" + ", \"rw\"]", k, c);
  }

  /** A check line that ends no helper line and differs from the three storage checks. */
  lemma StorageLeavesCheck(line: string, k: nat)
    requires NL !in line && line != "" && line[|line| - 1] != ')' && NoLineEnds(STORAGE_HELPER, line)
    requires k < |line| && OtherAt([MOUNT_RULE.check], k, line[|line| - 1 - k]) && k < |MOUNT_RULE.check|
    requires OtherAt([FS_GROUP_RULE.check], k, line[|line| - 1 - k]) && k < |FS_GROUP_RULE.check|
    requires OtherAt([OPTIONS_RULE.check], k, line[|line| - 1 - k]) && k < |OPTIONS_RULE.check|
    ensures LeavesLine(STORAGE_MOUNTS, line)
  {
    MountRuleApart(line, k);
    GroupRuleApart(line, k);
    OptionsRuleApart(line, k);
    StorageLeaves(line);
  }

  lemma StorageLeaves(line: string)
    requires NL !in line && line != "" && NoLineEnds(STORAGE_HELPER, line)
    requires NoClash(MOUNT_RULE, line) && NoClash(FS_GROUP_RULE, line) && NoClash(OPTIONS_RULE, line)
    ensures LeavesLine(STORAGE_MOUNTS, line)
  {
    ThreeApart(STORAGE_MOUNTS, MOUNT_RULE, FS_GROUP_RULE, OPTIONS_RULE, line);
  }

  lemma ThreeApart(p: Pass, a: Rule, b: Rule, c: Rule, line: string)
    requires p.rules == [a, b, c] && NL !in line && line != "" && NoLineEnds(p.helper, line)
    requires NoClash(a, line) && NoClash(b, line) && NoClash(c, line)
    ensures LeavesLine(p, line)
  {
    assert p.rules[0] == a && p.rules[1] == b && p.rules[2] == c;
  }

  lemma MountRuleApart(line: string, k: nat)
    requires line != "" && line[|line| - 1] != ')' && k < |line| && k < |MOUNT_RULE.check|
    requires OtherAt([MOUNT_RULE.check], k, line[|line| - 1 - k])
    ensures NoClash(MOUNT_RULE, line)
  {
    assert [MOUNT_RULE.check][0] == MOUNT_RULE.check;
    CallRuleApart(MOUNT_RULE, line, k);
  }

  lemma GroupRuleApart(line: string, k: nat)
    requires line != "" && line[|line| - 1] != ')' && k < |line| && k < |FS_GROUP_RULE.check|
    requires OtherAt([FS_GROUP_RULE.check], k, line[|line| - 1 - k])
    ensures NoClash(FS_GROUP_RULE, line)
  {
    assert [FS_GROUP_RULE.check][0] == FS_GROUP_RULE.check;
    CallRuleApart(FS_GROUP_RULE, line, k);
  }

  lemma OptionsRuleApart(line: string, k: nat)
    requires line != "" && line[|line| - 1] != ')' && k < |line| && k < |OPTIONS_RULE.check|
    requires OtherAt([OPTIONS_RULE.check], k, line[|line| - 1 - k])
    ensures NoClash(OPTIONS_RULE, line)
  {
    assert [OPTIONS_RULE.check][0] == OPTIONS_RULE.check;
    CallRuleApart(OPTIONS_RULE, line, k);
  }

  lemma StorageChecksEnd()
    ensures OtherAt([MOUNT_RULE.check], 2, 'd') && OtherAt([MOUNT_RULE.check], 0, '0')
    ensures OtherAt([FS_GROUP_RULE.check], 2, 'd') && OtherAt([FS_GROUP_RULE.check], 0, '0')
    ensures OtherAt([OPTIONS_RULE.check], 2, 'd') && OtherAt([OPTIONS_RULE.check], 0, '0')
    ensures |MOUNT_RULE.check| > 2 && |FS_GROUP_RULE.check| > 2 && |OPTIONS_RULE.check| > 2
  {
  }

  lemma StorageLeavesPidns()
    ensures LeavesLine(STORAGE_MOUNTS, PIDNS_RULE.check)
  {
    PidnsCheck();
    StorageChecksEnd();
    StorageOther(2, 'd');
    OtherApart(STORAGE_HELPER, 2, PIDNS_RULE.check);
    StorageLeavesCheck(PIDNS_RULE.check, 2);
  }

  lemma StorageLeavesRootfs()
    ensures LeavesLine(STORAGE_MOUNTS, ROOTFS_RULE.check)
  {
    RootfsCheck();
    StorageChecksEnd();
    StorageOther(6, 'n');
    OtherApart(STORAGE_HELPER, 6, ROOTFS_RULE.check);
    StorageLeavesCheck(ROOTFS_RULE.check, 0);
  }

  // ------------------------------------------------------------ ends of the checks

  lemma PidnsCheck()
    ensures NL !in PIDNS_RULE.check && |PIDNS_RULE.check| > 2
    ensures PIDNS_RULE.check[|PIDNS_RULE.check| - 3] == 'd' && PIDNS_RULE.check[|PIDNS_RULE.check| - 1] == 's'
  {
    PidnsShape();
    assert PlainRule(SANDBOX_PIDNS.rules[0]);
  }

  lemma RootfsCheck()
    ensures NL !in ROOTFS_RULE.check && |ROOTFS_RULE.check| > 6
    ensures ROOTFS_RULE.check[|ROOTFS_RULE.check| - 7] == 'n' && ROOTFS_RULE.check[|ROOTFS_RULE.check| - 1] == '0'
  {
    RootfsShape();
    assert PlainRule(ROOTFS_PROPAGATION.rules[0]);
  }

  lemma MountCheck()
    ensures NL !in MOUNT_RULE.check && |MOUNT_RULE.check| > 16
    ensures MOUNT_RULE.check[|MOUNT_RULE.check| - 17] == '=' && MOUNT_RULE.check[|MOUNT_RULE.check| - 1] == 's'
  {
    PlainChecks();
  }

  lemma GroupCheck()
    ensures NL !in FS_GROUP_RULE.check && FS_GROUP_RULE.check != ""
    ensures FS_GROUP_RULE.check[|FS_GROUP_RULE.check| - 1] == 'p'
  {
    PlainChecks();
  }

  lemma OptionsCheck()
    ensures NL !in OPTIONS_RULE.check && |OPTIONS_RULE.check| > 18
    ensures OPTIONS_RULE.check[|OPTIONS_RULE.check| - 19] == '=' && OPTIONS_RULE.check[|OPTIONS_RULE.check| - 1] == 's'
  {
    PlainChecks();
  }

  lemma SandboxCheck()
    ensures NL !in SANDBOX_RULE.check && |SANDBOX_RULE.check| > 1
    ensures SANDBOX_RULE.check[|SANDBOX_RULE.check| - 2] == 'g' && SANDBOX_RULE.check[|SANDBOX_RULE.check| - 1] == 'e'
  {
    PlainChecks();
  }

  // --------------------------------------------------------------- sandbox storages

  predicate SandboxOffset(k: nat, c: char) {
    (k == 2 && c == 'd') || (k == 0 && c in "0p") || (k == 16 && c == '=') || (k == 18 && c == '=')
  }

  lemma SandboxHeads(k: nat, c: char)
    requires SandboxOffset(k, c)
    ensures OtherAt([Head(SANDBOX, "p_storage, i_storage")], k, c)
    ensures OtherAt([Head(SANDBOX, "_p_storage, i_storage")], k, c)
    ensures OtherAt([Equals("i_storage", "p_storage")], k, c)
  {
  }

  lemma SandboxBody(k: nat, c: char)
    requires SandboxOffset(k, c)
    ensures OtherAt(SANDBOX_BODY, k, c)
  {
    SandboxBodyEnds();
    SandboxBodyMount();
    SandboxBodyOptions();
  }

  lemma SandboxBodyEnds()
    ensures OtherAt(SANDBOX_BODY, 0, '0') && OtherAt(SANDBOX_BODY, 0, 'p') && OtherAt(SANDBOX_BODY, 2, 'd')
  {
  }

  lemma SandboxBodyMount()
    ensures OtherAt(SANDBOX_BODY, 16, '=')
  {
  }

  lemma SandboxBodyOptions()
    ensures OtherAt(SANDBOX_BODY, 18, '=')
  {
  }

  lemma SandboxOther(k: nat, c: char)
    requires SandboxOffset(k, c)
    ensures OtherAt(SANDBOX_HELPER, k, c)
  {
    SandboxHeads(k, c);
    SandboxBody(k, c);
    var first, second := Head(SANDBOX, "p_storage, i_storage"), Head(SANDBOX, "_p_storage, i_storage");
    ClauseOther(first, [Equals("i_storage", "p_storage")], k, c);
    ClauseOther(second, SANDBOX_BODY, k, c);
    BothOther(Clause(first, [Equals("i_storage", "p_storage")]), Clause(second, SANDBOX_BODY), k, c);
  }

  lemma SandboxLeavesLine(line: string, k: nat)
    requires NL !in line && k < |line| && SandboxOffset(k, line[|line| - 1 - k])
    requires line[|line| - 1] in "s0p"
    ensures LeavesLine(SANDBOX_STORAGES, line)
  {
    SandboxCheck();
    SandboxOther(k, line[|line| - 1 - k]);
    OtherApart(SANDBOX_HELPER, k, line);
    CallRuleApart(SANDBOX_RULE, line, 0);
    assert SANDBOX_STORAGES.rules == [SANDBOX_RULE];
  }

  lemma SandboxLeavesEarlier()
    ensures LeavesLine(SANDBOX_STORAGES, PIDNS_RULE.check) && LeavesLine(SANDBOX_STORAGES, ROOTFS_RULE.check)
    ensures LeavesLine(SANDBOX_STORAGES, MOUNT_RULE.check) && LeavesLine(SANDBOX_STORAGES, FS_GROUP_RULE.check)
    ensures LeavesLine(SANDBOX_STORAGES, OPTIONS_RULE.check)
  {
    PidnsCheck();
    RootfsCheck();
    MountCheck();
    GroupCheck();
    OptionsCheck();
    SandboxLeavesLine(PIDNS_RULE.check, 2);
    SandboxLeavesLine(ROOTFS_RULE.check, 0);
    SandboxLeavesLine(MOUNT_RULE.check, 16);
    SandboxLeavesLine(FS_GROUP_RULE.check, 0);
    SandboxLeavesLine(OPTIONS_RULE.check, 18);
  }

  // ----------------------------------------------------------------- extra storages

  predicate ExtraOffset(k: nat, c: char) {
    (k == 0 && c in "s0p") || (k == 1 && c == 'g')
  }

  lemma ExtraHeads(k: nat, c: char)
    requires ExtraOffset(k, c)
    ensures OtherAt([Head("allow_storage", "_p_storages, i_storage" + ", bundle_id, sandbox_id")], k, c)
    ensures OtherAt([Head(EXTRA, "i_storage, bundle_id" + ", _sandbox_id")], k, c)
    ensures OtherAt([Call(EXTRA, "i_storage, bundle_id" + ", sandbox_id")], k, c)
  {
  }

  lemma ExtraBody(k: nat, c: char)
    requires ExtraOffset(k, c)
    ensures OtherAt(EXTRA_BODY, k, c)
  {
  }

  lemma ExtraOther(k: nat, c: char)
    requires ExtraOffset(k, c)
    ensures OtherAt(EXTRA_HELPER, k, c)
  {
    ExtraHeads(k, c);
    ExtraBody(k, c);
    var first := Head("allow_storage", "_p_storages, i_storage" + ", bundle_id, sandbox_id");
    var second := Head(EXTRA, "i_storage, bundle_id" + ", _sandbox_id");
    var call := [Call(EXTRA, "i_storage, bundle_id" + ", sandbox_id")];
    ClauseOther(first, call, k, c);
    ClauseOther(second, EXTRA_BODY, k, c);
    BothOther(Clause(first, call), Clause(second, EXTRA_BODY), k, c);
  }

  lemma ExtraRuleEnds()
    ensures EXTRA_RULE.check != "" && EXTRA_RULE.check[|EXTRA_RULE.check| - 1] == 't' && |EXTRA_RULE.allow| == 3
    ensures forall i :: 0 <= i < 3 ==>
              EXTRA_RULE.allow[i] != "" && EXTRA_RULE.allow[i][|EXTRA_RULE.allow[i]| - 1] in ")t"
  {
  }

  lemma ExtraLeavesLine(line: string, k: nat)
    requires NL !in line && k < |line| && ExtraOffset(k, line[|line| - 1 - k])
    requires line[|line| - 1] in "s0pe"
    ensures LeavesLine(EXTRA_STORAGES, line)
  {
    ExtraRuleEnds();
    ExtraOther(k, line[|line| - 1 - k]);
    OtherApart(EXTRA_HELPER, k, line);
    Differ(EXTRA_RULE.check, line, 0);
    forall i | 0 <= i < 3 ensures !EndsWith(EXTRA_RULE.allow[i], line) && !EndsWith(line, EXTRA_RULE.allow[i]) {
      Differ(EXTRA_RULE.allow[i], line, 0);
    }
    assert EXTRA_STORAGES.rules == [EXTRA_RULE];
  }

  lemma ExtraLeavesEarlier()
    ensures LeavesLine(EXTRA_STORAGES, PIDNS_RULE.check) && LeavesLine(EXTRA_STORAGES, ROOTFS_RULE.check)
    ensures LeavesLine(EXTRA_STORAGES, MOUNT_RULE.check) && LeavesLine(EXTRA_STORAGES, FS_GROUP_RULE.check)
    ensures LeavesLine(EXTRA_STORAGES, OPTIONS_RULE.check) && LeavesLine(EXTRA_STORAGES, SANDBOX_RULE.check)
  {
    PidnsCheck();
    RootfsCheck();
    MountCheck();
    GroupCheck();
    OptionsCheck();
    SandboxCheck();
    ExtraLeavesLine(PIDNS_RULE.check, 0);
    ExtraLeavesLine(ROOTFS_RULE.check, 0);
    ExtraLeavesLine(MOUNT_RULE.check, 0);
    ExtraLeavesLine(FS_GROUP_RULE.check, 0);
    ExtraLeavesLine(OPTIONS_RULE.check, 0);
    ExtraLeavesLine(SANDBOX_RULE.check, 1);
  }

  // ----------------------------------------------------------------------- markers

  /** Every marker is a plain word with a `w`, which no check line has. */
  lemma MarkersHaveW()
    ensures forall j :: 0 <= j < 5 ==> PlainWord(PASSES[j].marker) && 'w' in PASSES[j].marker
  {
    PlainMarkers();
    MorePlainMarkers();
    assert PIDNS[4] == 'w' && ROOTFS[4] == 'w' && MOUNT[4] == 'w' && SANDBOX[4] == 'w' && EXTRA[4] == 'w';
    assert PlainWord(PIDNS);
  }

  lemma RootfsTexts()
    ensures FrameFree("w\"") && FreeOf("count(i_linux" + ".RootfsPropagation)", "w\"") && FreeOf("0", "w\"")
  {
  }

  lemma MountTexts()
    ensures FreeOf("p_mount.options", "w\"") && FreeOf("i_mount.options", "w\"")
    ensures FreeOf("p_storage.fs_group" + "      ", "w\"") && FreeOf("i_storage.fs_group", "w\"")
    ensures FreeOf("p_storage.options", "w\"") && FreeOf("i_storage.options", "w\"")
  {
  }

  lemma StorageTexts()
    ensures FreeOf("i_storage", "w\"") && FreeOf("p_storage", "w\"")
    ensures FreeOf("p_count", "w\"") && FreeOf("i_count" + " - img_pull_count", "w\"")
  {
  }

  lemma ChecksLackW()
    ensures FreeOf(ROOTFS_RULE.check, "w\"") && FreeOf(MOUNT_RULE.check, "w\"") && FreeOf(FS_GROUP_RULE.check, "w\"")
    ensures FreeOf(OPTIONS_RULE.check, "w\"") && FreeOf(SANDBOX_RULE.check, "w\"") && FreeOf(EXTRA_RULE.check, "w\"")
  {
    RootfsTexts();
    MountTexts();
    StorageTexts();
    EqualsFree("count(i_linux" + ".RootfsPropagation)", "0", "w\"");
    EqualsFree("p_mount.options", "i_mount.options", "w\"");
    EqualsFree("p_storage.fs_group" + "      ", "i_storage.fs_group", "w\"");
    EqualsFree("p_storage.options", "i_storage.options", "w\"");
    EqualsFree("i_storage", "p_storage", "w\"");
    EqualsFree("p_count", "i_count" + " - img_pull_count", "w\"");
  }

  lemma CheckLacksMarker(check: string, word: string)
    requires FreeOf(check, "w\"") && 'w' in word
    ensures !Contains(check, word)
  {
    WordAbsent(check, "w\"", 'w', word);
  }

  lemma LaterKeepsMarker(k: nat, word: string)
    requires 1 <= k < 5 && PlainWord(word) && 'w' in word
    ensures KeepsWord(PASSES[k], word)
  {
    ChecksLackW();
    PassesInOrder();
    CheckLacksMarker(ROOTFS_RULE.check, word);
    CheckLacksMarker(MOUNT_RULE.check, word);
    CheckLacksMarker(FS_GROUP_RULE.check, word);
    CheckLacksMarker(OPTIONS_RULE.check, word);
    CheckLacksMarker(SANDBOX_RULE.check, word);
    CheckLacksMarker(EXTRA_RULE.check, word);
  }

  // ------------------------------------------------------------------- main results

  /** A later pass leaves the check lines of an earlier one alone. */
  lemma LaterLeavesLines(k: nat, j: nat, i: nat)
    requires j < k < 5 && i < |PASSES[j].rules|
    ensures LeavesLine(PASSES[k], PASSES[j].rules[i].check)
  {
    PassesInOrder();
    if k == 1 {
      PidnsCheck();
      RootfsLeaves(PIDNS_RULE.check);
    } else if k == 2 {
      StorageLeavesPidns();
      StorageLeavesRootfs();
    } else if k == 3 {
      SandboxLeavesEarlier();
    } else {
      ExtraLeavesEarlier();
    }
  }

  lemma {:induction false} NotAgainAfter(text: string, j: nat, k: nat)
    requires j < k <= 5
    ensures !Fires(PASSES[j], Stage(text, k))
  {
    if k == j + 1 {
      NotAgain(Stage(text, j), j);
    } else {
      NotAgainAfter(text, j, k - 1);
      LaterNeverMakesFire(Stage(text, k - 1), j, k - 1);
    }
  }

  lemma NotAgain(text: string, j: nat)
    requires j < 5
    ensures !Fires(PASSES[j], Apply(PASSES[j], text))
  {
    AllShapes();
    Idempotent(PASSES[j], text);
  }

  lemma LaterNeverMakesFire(text: string, j: nat, k: nat)
    requires j < k < 5 && !Fires(PASSES[j], text)
    ensures !Fires(PASSES[j], Apply(PASSES[k], text))
  {
    AllShapes();
    MarkersHaveW();
    LaterKeepsMarker(k, PASSES[j].marker);
    forall i | 0 <= i < |PASSES[j].rules| ensures LeavesLine(PASSES[k], PASSES[j].rules[i].check) {
      LaterLeavesLines(k, j, i);
    }
    NeverMakesFire(PASSES[k], PASSES[j], text);
  }

  /** On the output of the chain no pass fires, whatever the input. */
  lemma NoneFiresAfterChain(text: string)
    ensures forall j :: 0 <= j < 5 ==> !Fires(PASSES[j], Stage(text, 5))
  {
    forall j | 0 <= j < 5 ensures !Fires(PASSES[j], Stage(text, 5)) {
      NotAgainAfter(text, j, 5);
    }
  }

  lemma {:induction false} NothingFires(text: string, k: nat)
    requires k <= 5 && forall j :: 0 <= j < 5 ==> !Fires(PASSES[j], text)
    ensures Stage(text, k) == text
  {
    if k == 0 {
    } else {
      NothingFires(text, k - 1);
    }
  }

  /** The chain of five passes is idempotent. */
  lemma ChainIdempotent(text: string)
    ensures Stage(Stage(text, 5), 5) == Stage(text, 5)
  {
    NoneFiresAfterChain(text);
    NothingFires(Stage(text, 5), 5);
  }
}
