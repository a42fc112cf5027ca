/** The generated policy from the corrected text to the signed one (signing-service/src/genpolicy.rs,
    normalize_cap_generated_policy): five passes, a placeholder and a header line. They work on the
    rules; the policy data behind them is left alone. */
module GeneratedPolicy {
  import opened Bytes
  import opened TextRewriting
  import opened PolicyLines
  import opened PolicyConstants
  import opened PolicyPasses
  import opened PolicyFacts
  import opened MountCorrection
  import opened PolicyData

  const LAYOUT_LINE: string := "# enclava-cap-volume-layout" + ": guest-memory-v2"
  const PLACEHOLDER: string := "\"CAP_$(privileged" + "_caps)\""
  const PRIVILEGED: string := "\"$(privileged" + "_caps)\""

  /** The text after all passes, with the placeholder replaced and the layout line in front. */
  function Finished(text: string): string {
    LAYOUT_LINE + [NL] + Replace(Stage(text, 5), PLACEHOLDER, PRIVILEGED)
  }

  // ---------------------------------------------------------- a tail of whole lines

  /** The text ends with a line break, so that what follows starts a line. */
  predicate EndsLine(text: string) {
    text != [] && text[|text| - 1] == NL
  }

  /** No line of the text, taken as whole lines, ends with a check of any pass or is ended by the
      anchor line. */
  ghost predicate Untouched(tail: string) {
    && !HasLine(tail, ANCHOR_LINE)
    && forall j, i :: 0 <= j < 5 && 0 <= i < |PASSES[j].rules| ==> !HasLine(tail, PASSES[j].rules[i].check)
  }

  lemma LastOfBoth(a: string, b: string)
    requires EndsLine(b)
    ensures EndsLine(a + b)
  {
  }

  lemma {:induction false} UnlinesEndsLine(lines: seq<string>)
    requires lines != []
    ensures EndsLine(Unlines(lines))
  {
    if |lines| <= 1 {
    } else {
      UnlinesEndsLine(lines[1..]);
    }
  }

  lemma LineEnds(a: string, rule: Rule)
    requires rule.allow != []
    ensures EndsLine(RewriteLine(a, rule.check, Unlines(rule.allow)))
  {
    UnlinesEndsLine(rule.allow);
  }

  /** A rule works on each side of a line end on its own. */
  lemma {:induction false} RuleDistributes(front: string, tail: string, rule: Rule)
    requires PlainRule(rule) && EndsLine(front)
    ensures ApplyRule(front + tail, rule) == ApplyRule(front, rule) + ApplyRule(tail, rule)
    ensures EndsLine(ApplyRule(front, rule))
    decreases |front|
  {
    var a, rest := FirstLine(front);
    assert front + tail == a + [NL] + (rest + tail);
    RuleOnLine(a, rest, rule);
    RuleOnLine(a, rest + tail, rule);
    if rest == [] {
      assert rest + tail == tail;
    } else {
      assert rest[|rest| - 1] == front[|front| - 1];
      RuleDistributes(rest, tail, rule);
      var line := RewriteLine(a, rule.check, Unlines(rule.allow));
      Associate(line, ApplyRule(rest, rule), ApplyRule(tail, rule));
      LastOfBoth(line, ApplyRule(rest, rule));
    }
  }

  lemma RuleOnLine(a: string, rest: string, rule: Rule)
    requires PlainRule(rule) && NL !in a
    ensures ApplyRule(a + [NL] + rest, rule) == RewriteLine(a, rule.check, Unlines(rule.allow)) + ApplyRule(rest, rule)
    ensures EndsLine(RewriteLine(a, rule.check, Unlines(rule.allow)))
    ensures rest == [] ==> ApplyRule(a + [NL] + rest, rule) == RewriteLine(a, rule.check, Unlines(rule.allow))
  {
    ReplaceLine(a, rest, rule.check, Unlines(rule.allow));
    LineEnds(a, rule);
  }

  lemma ReplaceBefore(front: string, tail: string, rule: Rule)
    requires PlainRule(rule) && EndsLine(front) && !HasLine(tail, rule.check)
    ensures ApplyRule(front + tail, rule) == ApplyRule(front, rule) + tail && EndsLine(ApplyRule(front, rule))
  {
    RuleDistributes(front, tail, rule);
    ReplaceAbsent(tail, rule.check + [NL], Unlines(rule.allow));
  }

  lemma {:induction false} RulesBefore(front: string, tail: string, rules: seq<Rule>)
    requires EndsLine(front)
    requires forall i :: 0 <= i < |rules| ==> PlainRule(rules[i]) && !HasLine(tail, rules[i].check)
    ensures ApplyRules(front + tail, rules) == ApplyRules(front, rules) + tail && EndsLine(ApplyRules(front, rules))
    decreases rules
  {
    if rules == [] {
    } else {
      ReplaceBefore(front, tail, rules[0]);
      RulesBefore(ApplyRule(front, rules[0]), tail, rules[1..]);
    }
  }

  lemma InsertBefore(front: string, tail: string, anchorLine: string, helper: string)
    requires EndsLine(front) && EndsLine(helper) && NL !in anchorLine && !HasLine(tail, anchorLine)
    ensures InsertAfter(front + tail, anchorLine, helper) == InsertAfter(front, anchorLine, helper) + tail
    ensures EndsLine(InsertAfter(front, anchorLine, helper))
  {
    var anchor := anchorLine + [NL];
    FindIsFirst(front, anchor);
    if Find(front, anchor).Some? {
      FoundBefore(front, tail, anchorLine, anchor, helper, Find(front, anchor).value);
    } else {
      NotFoundBefore(front, tail, anchorLine);
      Associate(helper + [NL], front, tail);
    }
  }

  lemma FoundBefore(front: string, tail: string, anchorLine: string, anchor: string, helper: string, p: nat)
    requires anchor == anchorLine + [NL] && Find(front, anchor) == Some(p) && EndsLine(front) && EndsLine(helper)
    ensures InsertAfter(front + tail, anchorLine, helper) == InsertAfter(front, anchorLine, helper) + tail
    ensures EndsLine(InsertAfter(front, anchorLine, helper))
  {
    var text, q := front + tail, p + |anchor|;
    CutConcat(front, tail, q);
    FindBeforeCut(front, text, anchor, p);
    InsertAt(front, anchorLine, anchor, helper, p);
    InsertAt(text, anchorLine, anchor, helper, p);
    Associate(front[..q] + helper, front[q..], tail);
    InsertedEndsLine(front, helper, q);
  }

  lemma CutConcat(front: string, tail: string, q: nat)
    requires q <= |front|
    ensures (front + tail)[..q] == front[..q] && (front + tail)[q..] == front[q..] + tail
  {
  }

  lemma InsertedEndsLine(front: string, helper: string, q: nat)
    requires q <= |front| && EndsLine(front) && EndsLine(helper)
    ensures EndsLine(front[..q] + helper + front[q..])
  {
    var back := front[q..];
    if back == [] {
      assert front[..q] + helper + back == front[..q] + helper;
    } else {
      assert back[|back| - 1] == front[|front| - 1];
    }
  }

  lemma NotFoundBefore(front: string, tail: string, anchorLine: string)
    requires EndsLine(front) && !HasLine(tail, anchorLine) && NL !in anchorLine
    requires Find(front, anchorLine + [NL]).None?
    ensures Find(front + tail, anchorLine + [NL]).None?
  {
    var anchor := anchorLine + [NL];
    var line := front[..|front| - 1];
    FindIsFirst(front, anchor);
    assert front == line + [NL];
    FoundIsContained(front + tail, anchor);
    LineBeside(line, tail, anchorLine);
  }

  lemma FoundIsContained(text: string, n: string)
    ensures Find(text, n).Some? ==> Contains(text, n)
  {
    if Find(text, n).Some? {
      assert OccursAt(text, n, Find(text, n).value);
    }
  }

  /** A pass leaves such a tail alone, whether it fires or not. */
  lemma PassBefore(front: string, tail: string, p: Pass) returns (after: string)
    requires WellShaped(p) && p.helper != [] && EndsLine(front) && !HasLine(tail, ANCHOR_LINE)
    requires forall i :: 0 <= i < |p.rules| ==> !HasLine(tail, p.rules[i].check)
    ensures Apply(p, front + tail) == after + tail && EndsLine(after)
  {
    if Fires(p, front + tail) {
      RulesBefore(front, tail, p.rules);
      UnlinesEndsLine(p.helper);
      AnchorLine();
      InsertBefore(ApplyRules(front, p.rules), tail, ANCHOR_LINE, Unlines(p.helper));
      after := InsertHelper(ApplyRules(front, p.rules), Unlines(p.helper));
    } else {
      after := front;
    }
  }

  lemma {:induction false} StageBefore(front: string, tail: string, k: nat) returns (after: string)
    requires k <= 5 && EndsLine(front) && Untouched(tail)
    ensures Stage(front + tail, k) == after + tail && EndsLine(after)
  {
    if k == 0 {
      after := front;
    } else {
      after := StageBefore(front, tail, k - 1);
      AllShapes();
      HelpersNotEmpty(k - 1);
      after := PassBefore(after, tail, PASSES[k - 1]);
    }
  }

  lemma HelpersNotEmpty(k: nat)
    requires k < 5
    ensures PASSES[k].helper != []
  {
    AllShapes();
    assert WellShaped(PASSES[k]);
  }

  // ------------------------------------------------------------------ the policy data

  const SEPARATOR_LINE: string := "policy_data := "

  /** Data that the passes cannot touch: no line of it, the separator's line included, is a check or
      anchor line, and it holds no separator. */
  ghost predicate InertData(data: string) {
    Untouched(SEPARATOR_LINE + data) && !Contains(data, SEPARATOR)
  }

  lemma SeparatorParts(rules: string, data: string)
    ensures rules + SEPARATOR + data == (rules + [NL]) + (SEPARATOR_LINE + data)
  {
    assert SEPARATOR == [NL] + SEPARATOR_LINE;
  }

  lemma StageKeepsData(rules: string, data: string, k: nat) returns (front: string)
    requires k <= 5 && InertData(data)
    ensures Stage(rules + SEPARATOR + data, k) == front + SEPARATOR + data
  {
    SeparatorParts(rules, data);
    var after := StageBefore(rules + [NL], SEPARATOR_LINE + data, k);
    front := after[..|after| - 1];
    assert after == front + [NL];
    SeparatorParts(front, data);
  }

  lemma SplitData(front: string, data: string)
    requires !Contains(data, SEPARATOR)
    ensures RSplitOnce(front + SEPARATOR + data, SEPARATOR) == Some((front, data))
  {
    assert SEPARATOR[0] == NL && NL !in SEPARATOR[1..];
    SplitBack(front, SEPARATOR, data);
  }

  /** The passes leave the policy data alone. */
  lemma PassesKeepData(rules: string, data: string, k: nat)
    requires k <= 5 && InertData(data)
    ensures RSplitOnce(Stage(rules + SEPARATOR + data, k), SEPARATOR).Some?
    ensures RSplitOnce(Stage(rules + SEPARATOR + data, k), SEPARATOR).value.1 == data
  {
    var front := StageKeepsData(rules, data, k);
    SplitData(front, data);
  }

  lemma {:induction false} ReplaceBehind(a: string, b: string, n: string, r: string)
    requires n != "" && n[0] !in a
    ensures Replace(a + b, n, r) == a + Replace(b, n, r)
  {
    if a == [] {
      assert a + b == b;
    } else {
      assert (a + b)[1..] == a[1..] + b && (a + b)[0] == a[0];
      ReplaceBehind(a[1..], b, n, r);
      assert a == [a[0]] + a[1..];
    }
  }

  /** A replacement in the same quotes as the needle makes no new word without that quote. */
  lemma {:induction false} ReplaceMakesNoWord(s: string, n: string, quote: char, inner: string, word: string)
    requires n != "" && word != "" && quote !in word
    requires !Contains(s, word) && !Contains(inner, word)
    ensures !Contains(Replace(s, n, [quote] + inner + [quote]), word)
    decreases |s|
  {
    var r := [quote] + inner + [quote];
    if Find(s, n).None? {
      FindIsFirst(s, n);
      ReplaceAbsent(s, n, r);
    } else {
      var p := Find(s, n).value;
      var rest := s[p + |n|..];
      PiecesLack(s, p, p + |n|, word);
      ReplaceMakesNoWord(rest, n, quote, inner, word);
      ReplaceFirst(s, n, r);
      var done := Replace(rest, n, r);
      ContainsBeside(inner, quote, done, word);
      ContainsBeside(s[..p], quote, inner + [quote] + done, word);
      assert s[..p] + r + done == s[..p] + [quote] + (inner + [quote] + done);
    }
  }

  lemma PiecesLack(s: string, p: nat, q: nat, word: string)
    requires p <= q <= |s| && !Contains(s, word)
    ensures !Contains(s[..p], word) && !Contains(s[q..], word)
  {
    assert [] + s[..p] + s[p..] == s && s[..q] + s[q..] + [] == s;
    if Contains(s[..p], word) {
      ContainsInside([], s[..p], s[p..], word);
    }
    if Contains(s[q..], word) {
      ContainsInside(s[..q], s[q..], [], word);
    }
  }

  lemma PlaceholderTexts()
    ensures PLACEHOLDER != "" && PLACEHOLDER[0] == '"' && '"' !in SEPARATOR_LINE && '"' !in SEPARATOR
    ensures NL !in PLACEHOLDER && PRIVILEGED == ['"'] + ("$(privileged" + "_caps)") + ['"']
    ensures NL !in "$(privileged" + "_caps)" && NL in SEPARATOR
  {
    assert SEPARATOR[0] == NL;
  }

  lemma DataStaysSplit(data: string)
    requires !Contains(data, SEPARATOR)
    ensures !Contains(Replace(data, PLACEHOLDER, PRIVILEGED), SEPARATOR)
  {
    PlaceholderTexts();
    var inner := "$(privileged" + "_caps)";
    ContainsElements(inner, SEPARATOR);
    ReplaceMakesNoWord(data, PLACEHOLDER, '"', inner, SEPARATOR);
  }

  /** The finished policy holds the data with the placeholder replaced, and no other change. */
  lemma FinishedKeepsData(rules: string, data: string)
    requires InertData(data)
    ensures RSplitOnce(Finished(rules + SEPARATOR + data), SEPARATOR).Some?
    ensures RSplitOnce(Finished(rules + SEPARATOR + data), SEPARATOR).value.1
            == Replace(data, PLACEHOLDER, PRIVILEGED)
  {
    var front := StageKeepsData(rules, data, 5);
    var replaced := Replace(data, PLACEHOLDER, PRIVILEGED);
    var before := Replace(front, PLACEHOLDER, PRIVILEGED);
    PlaceholderTexts();
    assert front + SEPARATOR + data == front + [NL] + (SEPARATOR_LINE + data) by {
      SeparatorParts(front, data);
    }
    ReplaceBeside(front, NL, SEPARATOR_LINE + data, PLACEHOLDER, PRIVILEGED);
    ReplaceBehind(SEPARATOR_LINE, data, PLACEHOLDER, PRIVILEGED);
    assert Replace(front + SEPARATOR + data, PLACEHOLDER, PRIVILEGED) == before + SEPARATOR + replaced by {
      SeparatorParts(before, replaced);
    }
    Reassociate(LAYOUT_LINE + [NL], before, SEPARATOR, replaced);
    DataStaysSplit(data);
    SplitData(LAYOUT_LINE + [NL] + before, replaced);
  }

  lemma Reassociate(a: string, b: string, c: string, d: string)
    ensures a + (b + c + d) == a + b + c + d
  {
  }

  /** From the generator's text to the passes' output: the rules change, and the data is the
      corrected tree. */
  lemma CorrectedDataSurvives(codec: JsonText, text: string, k: nat)
    requires k <= 5 && OutputReadsBack(codec, text)
    requires InertData(codec.show(CorrectedData(DataOf(codec, text).value)))
    ensures DataOf(codec, Stage(Normalized(codec, text).value, k)) == Some(CorrectedData(DataOf(codec, text).value))
  {
    var data := codec.show(CorrectedData(DataOf(codec, text).value));
    PassesKeepData(RSplitOnce(text, SEPARATOR).value.0, data, k);
  }
}
