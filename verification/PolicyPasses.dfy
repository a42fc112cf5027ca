/** The five policy text passes (signing-service/src/genpolicy.rs). Each fires when its marker
    is absent and a check line is present; it then rewrites the check lines into calls and
    inserts the helper that defines what is called. The helpers contain check lines
    themselves, so applying a pass twice is safe only because of the marker. */
module PolicyPasses {
  import opened TextRewriting
  import opened PolicyLines
  import opened PolicyConstants

  predicate Fires(p: Pass, text: string) {
    !Contains(text, p.marker) && exists i :: 0 <= i < |p.rules| && HasLine(text, p.rules[i].check)
  }

  function ApplyRules(text: string, rules: seq<Rule>): string
    decreases rules
  {
    if rules == [] then text else ApplyRules(ApplyRule(text, rules[0]), rules[1..])
  }

  function Apply(p: Pass, text: string): string {
    if Fires(p, text) then InsertHelper(ApplyRules(text, p.rules), Unlines(p.helper)) else text
  }

  /** Replaces the lines that a rule writes by its check again. */
  function UndoRule(text: string, rule: Rule): string
    requires rule.allow != []
  {
    Replace(text, Unlines(rule.allow), rule.check + [NL])
  }

  /** Takes rules back in the opposite order. */
  function UndoRules(text: string, rules: seq<Rule>): string
    requires forall i :: 0 <= i < |rules| ==> rules[i].allow != []
    decreases rules
  {
    if rules == [] then text else UndoRule(UndoRules(text, rules[1..]), rules[0])
  }

  /** Deletes the helper and turns calls back into check lines. */
  function Undo(p: Pass, text: string): string
    requires forall i :: 0 <= i < |p.rules| ==> p.rules[i].allow != []
  {
    UndoRules(RemoveHelper(text, Unlines(p.helper)), p.rules)
  }

  const PASSES: seq<Pass> :=
    [SANDBOX_PIDNS, ROOTFS_PROPAGATION, STORAGE_MOUNTS, SANDBOX_STORAGES, EXTRA_STORAGES]

  /** The text after the first `k` passes. */
  function Stage(text: string, k: nat): string
    requires k <= 5
  {
    if k == 0 then text else Apply(PASSES[k - 1], Stage(text, k - 1))
  }

  // ---------------------------------------------------- conditions on one pass

  predicate NoLineEnds(lines: seq<string>, line: string) {
    forall i :: 0 <= i < |lines| ==> !EndsWith(lines[i], line)
  }

  predicate NoLineHas(lines: seq<string>, word: string) {
    forall i :: 0 <= i < |lines| ==> !Contains(lines[i], word)
  }

  /** The shape that every law below needs of a pass. */
  ghost predicate WellShaped(p: Pass) {
    && p.marker != [] && NL !in p.marker
    && (forall i :: 0 <= i < |p.rules| ==> PlainRule(p.rules[i]) && Removes(p.rules[i])
                                           && BorderFree(Unlines(p.rules[i].allow)))
    && (forall i, j :: 0 <= i < |p.rules| && 0 <= j < |p.rules| && i != j ==>
          NoClash(p.rules[j], p.rules[i].check))
    && (forall i :: 0 <= i < |p.helper| ==> NL !in p.helper[i])
    && (exists i :: 0 <= i < |p.helper| && Contains(p.helper[i], p.marker))
    && NoLineEnds(p.helper, ANCHOR_LINE)
  }

  /** The pass neither adds nor removes the line ending. */
  ghost predicate LeavesLine(p: Pass, line: string) {
    && line != [] && NL !in line && NoLineEnds(p.helper, line)
    && forall i :: 0 <= i < |p.rules| ==> NoClash(p.rules[i], line)
  }

  /** The pass neither adds nor removes the word. */
  ghost predicate LeavesWord(p: Pass, word: string) {
    && word != [] && NL !in word && NoLineHas(p.helper, word)
    && forall i :: 0 <= i < |p.rules| ==> NoWordClash(p.rules[i], word)
  }

  // ------------------------------------------------------------ laws of one pass

  /** Applying a pass twice is applying it once. */
  lemma Idempotent(p: Pass, text: string)
    requires WellShaped(p)
    ensures Apply(p, Apply(p, text)) == Apply(p, text)
    ensures Fires(p, text) ==> Contains(Apply(p, text), p.marker)
  {
    if Fires(p, text) {
      InsertKeepsWord(ApplyRules(text, p.rules), ANCHOR_LINE, p.helper, p.marker);
    }
  }

  lemma {:induction false} RulesKeepLine(text: string, rules: seq<Rule>, line: string)
    requires NL !in line
    requires forall i :: 0 <= i < |rules| ==> PlainRule(rules[i]) && NoClash(rules[i], line)
    ensures HasLine(ApplyRules(text, rules), line) <==> HasLine(text, line)
    decreases rules
  {
    if rules == [] {
    } else {
      RuleKeepsLine(text, rules[0], line);
      RulesKeepLine(ApplyRule(text, rules[0]), rules[1..], line);
    }
  }

  lemma {:induction false} RulesKeepWord(text: string, rules: seq<Rule>, word: string)
    requires forall i :: 0 <= i < |rules| ==> PlainRule(rules[i]) && NoWordClash(rules[i], word)
    ensures Contains(ApplyRules(text, rules), word) <==> Contains(text, word)
    decreases rules
  {
    if rules == [] {
    } else {
      RuleKeepsWord(text, rules[0], word);
      RulesKeepWord(ApplyRule(text, rules[0]), rules[1..], word);
    }
  }

  lemma {:induction false} RulesRemoveCheck(text: string, rules: seq<Rule>, i: nat)
    requires i < |rules| && forall j :: 0 <= j < |rules| ==> PlainRule(rules[j])
    requires Removes(rules[i])
    requires forall j :: 0 <= j < |rules| && i != j ==> NoClash(rules[j], rules[i].check)
    ensures !HasLine(ApplyRules(text, rules), rules[i].check)
    decreases rules
  {
    if i == 0 {
      RuleRemovesCheck(text, rules[0]);
      RulesKeepLine(ApplyRule(text, rules[0]), rules[1..], rules[0].check);
    } else {
      RulesRemoveCheck(ApplyRule(text, rules[0]), rules[1..], i - 1);
    }
  }

  /** Once a pass has fired, no line outside the inserted helper ends with a check. */
  lemma NoCheckOutsideHelper(p: Pass, text: string, i: nat)
    requires WellShaped(p) && Fires(p, text) && i < |p.rules|
    ensures !HasLine(RemoveHelper(Apply(p, text), Unlines(p.helper)), p.rules[i].check)
  {
    AnchorLine();
    RemoveInserted(ApplyRules(text, p.rules), ANCHOR_LINE, p.helper);
    RulesRemoveCheck(text, p.rules, i);
  }

  lemma AnchorLine()
    ensures NL !in ANCHOR_LINE && ANCHOR_LINE != []
  {
  }

  /** Taking back what a rule wrote restores the text, if it wrote nothing that was
      there before. */
  lemma UndoOneRule(text: string, rule: Rule)
    requires PlainRule(rule) && BorderFree(Unlines(rule.allow))
    requires !Contains(text, Unlines(rule.allow))
    ensures UndoRule(ApplyRule(text, rule), rule) == text
  {
    ReplaceBack(text, rule.check + [NL], Unlines(rule.allow));
  }

  lemma MarkerInCall(text: string, rule: Rule, marker: string)
    requires rule.allow != [] && Contains(rule.allow[0], marker) && !Contains(text, marker)
    ensures !Contains(text, Unlines(rule.allow))
  {
    var call := Unlines(rule.allow);
    if Contains(text, call) {
      var i :| 0 <= i <= |text| && OccursAt(text, call, i);
      assert call == [] + rule.allow[0] + ([NL] + Unlines(rule.allow[1..]));
      ContainsInside([], rule.allow[0], [NL] + Unlines(rule.allow[1..]), marker);
      assert text == text[..i] + call + text[i + |call|..];
      ContainsInside(text[..i], call, text[i + |call|..], marker);
    }
  }

  /** A fired one-rule pass can be undone: deleting the helper and replacing calls by the
      check gives back the exact input, with or without the anchor line. Hence the pass
      is injective on the texts it fires on. */
  lemma Invertible(p: Pass, text: string)
    requires WellShaped(p) && |p.rules| == 1 && Contains(p.rules[0].allow[0], p.marker)
    requires Fires(p, text)
    ensures Undo(p, Apply(p, text)) == text
  {
    AnchorLine();
    var rule := p.rules[0];
    RemoveInserted(ApplyRules(text, p.rules), ANCHOR_LINE, p.helper);
    var rewritten := ApplyRule(text, rule);
    assert ApplyRules(rewritten, p.rules[1..]) == rewritten;
    assert UndoRules(rewritten, p.rules[1..]) == rewritten;
    MarkerInCall(text, rule, p.marker);
    UndoOneRule(text, rule);
  }

  /** A pass does not change whether another one fires, if it leaves the other's marker
      and checks alone. */
  lemma LeavesFiring(p: Pass, q: Pass, text: string)
    requires WellShaped(p) && LeavesWord(p, q.marker)
    requires forall i :: 0 <= i < |q.rules| ==> LeavesLine(p, q.rules[i].check)
    ensures Fires(q, Apply(p, text)) <==> Fires(q, text)
  {
    if Fires(p, text) {
      var rewritten := ApplyRules(text, p.rules);
      RulesKeepWord(text, p.rules, q.marker);
      InsertKeepsWord(rewritten, ANCHOR_LINE, p.helper, q.marker);
      forall i | 0 <= i < |q.rules|
        ensures HasLine(Apply(p, text), q.rules[i].check) <==> HasLine(text, q.rules[i].check)
      {
        var line := q.rules[i].check;
        assert LeavesLine(p, line);
        RulesKeepLine(text, p.rules, line);
        InsertKeepsLine(rewritten, ANCHOR_LINE, p.helper, line);
      }
    }
  }

  // --------------------------------------------- undoing a pass with several rules

  /** The rule that turns a call back into its check. */
  function Inverse(rule: Rule): Rule
    requires |rule.allow| == 1
  {
    Rule(rule.allow[0], [rule.check])
  }

  /** A rule that writes one call, and whose inverse removes every such call. */
  ghost predicate GoodCallRule(r: Rule) {
    && |r.allow| == 1 && PlainRule(r) && Removes(r) && r.allow[0] != []
    && BorderFree(Unlines(r.allow)) && Removes(Inverse(r))
  }

  /** Neither rule nor its inverse touches the other's call. */
  ghost predicate CallsDoNotClash(a: Rule, b: Rule)
    requires |a.allow| == 1 && |b.allow| == 1
  {
    && NoClash(a, b.allow[0]) && NoClash(Inverse(a), b.allow[0])
    && NoClash(b, a.allow[0]) && NoClash(Inverse(b), a.allow[0])
  }

  /** One-line rules whose lines are no endings of each other. */
  ghost predicate SuffixFree(rules: seq<Rule>) {
    && (forall i :: 0 <= i < |rules| ==> GoodCallRule(rules[i]))
    && (forall i, j :: 0 <= i < j < |rules| ==> CallsDoNotClash(rules[i], rules[j]))
  }

  lemma UndoIsInverse(text: string, rule: Rule)
    requires |rule.allow| == 1
    ensures UndoRule(text, rule) == ApplyRule(text, Inverse(rule))
    ensures Unlines(rule.allow) == rule.allow[0] + [NL]
  {
    var call, check := rule.allow[0], rule.check;
    assert [check][1..] == [] && rule.allow[1..] == [];
    assert Unlines([check]) == check + [NL] + Unlines([]) == check + [NL];
    assert Unlines(rule.allow) == call + [NL] + Unlines([]) == call + [NL];
  }

  lemma TailSuffixFree(rules: seq<Rule>)
    requires SuffixFree(rules) && rules != []
    ensures SuffixFree(rules[1..])
  {
  }

  lemma {:induction false} UndoAllRules(text: string, rules: seq<Rule>)
    requires SuffixFree(rules)
    requires forall i :: 0 <= i < |rules| ==> !HasLine(text, rules[i].allow[0])
    ensures UndoRules(ApplyRules(text, rules), rules) == text
    decreases rules
  {
    if rules == [] {
    } else {
      var next := ApplyRule(text, rules[0]);
      forall i | 0 <= i < |rules[1..]| ensures !HasLine(next, rules[1..][i].allow[0]) {
        RuleKeepsLine(text, rules[0], rules[i + 1].allow[0]);
      }
      TailSuffixFree(rules);
      UndoAllRules(next, rules[1..]);
      UndoIsInverse(text, rules[0]);
      UndoOneRule(text, rules[0]);
    }
  }

  /** After undoing, none of the calls is left. */
  lemma {:induction false} UndoLeavesNoCall(text: string, rules: seq<Rule>, i: nat)
    requires SuffixFree(rules) && i < |rules|
    ensures !HasLine(UndoRules(text, rules), rules[i].allow[0])
    decreases rules
  {
    var rest := rules[1..];
    var inner, call := UndoRules(text, rest), rules[i].allow[0];
    assert PlainRule(Inverse(rules[0])) && NL !in call;
    UndoIsInverse(inner, rules[0]);
    if i == 0 {
      RuleRemovesCheck(inner, Inverse(rules[0]));
    } else {
      assert rest[i - 1] == rules[i];
      TailSuffixFree(rules);
      UndoLeavesNoCall(text, rest, i - 1);
      RuleKeepsLine(inner, Inverse(rules[0]), call);
    }
  }

  /** A fired pass with one-line rules can be undone exactly when the text held none of
      its calls beforehand. */
  lemma InvertibleExactly(p: Pass, text: string)
    requires WellShaped(p) && SuffixFree(p.rules) && Fires(p, text)
    ensures Undo(p, Apply(p, text)) == text <==>
            forall i :: 0 <= i < |p.rules| ==> !HasLine(text, p.rules[i].allow[0])
  {
    AnchorLine();
    RemoveInserted(ApplyRules(text, p.rules), ANCHOR_LINE, p.helper);
    if forall i :: 0 <= i < |p.rules| ==> !HasLine(text, p.rules[i].allow[0]) {
      UndoAllRules(text, p.rules);
    } else {
      var i :| 0 <= i < |p.rules| && HasLine(text, p.rules[i].allow[0]);
      UndoLeavesNoCall(ApplyRules(text, p.rules), p.rules, i);
    }
  }
}
