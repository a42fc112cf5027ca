/** What the finished policy holds of its rules (signing-service/src/genpolicy.rs,
    normalize_cap_generated_policy): the layout line in front, and the helper of every pass that
    fired, whole, with no check line of that pass outside it. */
module GeneratedRules {
  import opened Bytes
  import opened TextRewriting
  import opened PolicyLines
  import opened PolicyConstants
  import opened PolicyPasses
  import opened PolicyFacts
  import opened PolicyChain
  import opened MountCorrection
  import opened PolicyData
  import opened GeneratedPolicy

  /** Nothing, or whole lines. */
  predicate OnLine(front: string) {
    front == [] || EndsLine(front)
  }

  // ------------------------------------------------------------- rules on whole lines

  lemma {:induction false} RulesDistribute(front: string, tail: string, rules: seq<Rule>)
    requires OnLine(front) && forall i :: 0 <= i < |rules| ==> PlainRule(rules[i])
    ensures ApplyRules(front + tail, rules) == ApplyRules(front, rules) + ApplyRules(tail, rules)
    ensures OnLine(ApplyRules(front, rules))
    decreases rules
  {
    if rules == [] {
    } else {
      if front == [] {
        assert front + tail == tail && ApplyRule(front, rules[0]) == [];
        assert [] + ApplyRule(tail, rules[0]) == ApplyRule(tail, rules[0]);
      } else {
        RuleDistributes(front, tail, rules[0]);
      }
      RulesDistribute(ApplyRule(front, rules[0]), ApplyRule(tail, rules[0]), rules[1..]);
    }
  }

  /** A block of lines that no check ends is left alone. */
  lemma {:induction false} RulesKeepBlock(lines: seq<string>, rules: seq<Rule>)
    requires forall i :: 0 <= i < |lines| ==> NL !in lines[i]
    requires forall i :: 0 <= i < |rules| ==> NL !in rules[i].check && NoLineEnds(lines, rules[i].check)
    ensures ApplyRules(Unlines(lines), rules) == Unlines(lines)
    decreases rules
  {
    if rules == [] {
    } else {
      BlockLacksLine(lines, rules[0].check);
      ReplaceAbsent(Unlines(lines), rules[0].check + [NL], Unlines(rules[0].allow));
      RulesKeepBlock(lines, rules[1..]);
    }
  }

  lemma BlockLacksLine(lines: seq<string>, line: string)
    requires NL !in line && NoLineEnds(lines, line) && forall i :: 0 <= i < |lines| ==> NL !in lines[i]
    ensures !HasLine(Unlines(lines), line)
  {
    assert Unlines(lines) + [] == Unlines(lines);
    LinesOf(lines, [], line);
    NoLineBreakNoLine([], line);
  }

  // ---------------------------------------------------------- inserting around a block

  lemma FindBehind(front: string, tail: string, anchorLine: string, p: nat)
    requires EndsLine(front) && NL !in anchorLine && !Contains(front, anchorLine + [NL])
    requires Find(tail, anchorLine + [NL]) == Some(p)
    ensures Find(front + tail, anchorLine + [NL]) == Some(|front| + p)
  {
    FindIsFirst(tail, anchorLine + [NL]);
    OccursBehind(front, tail, anchorLine + [NL], p);
    NoneBefore(front, tail, anchorLine, p);
    FindUnique(front + tail, anchorLine + [NL], |front| + p);
  }

  lemma NoneBefore(front: string, tail: string, anchorLine: string, p: nat)
    requires EndsLine(front) && NL !in anchorLine && !Contains(front, anchorLine + [NL])
    requires forall j | 0 <= j < p :: !OccursAt(tail, anchorLine + [NL], j)
    ensures forall i | 0 <= i < |front| + p :: !OccursAt(front + tail, anchorLine + [NL], i)
  {
    forall i | 0 <= i < |front| + p ensures !OccursAt(front + tail, anchorLine + [NL], i) {
      NotBefore(front, tail, anchorLine, p, i);
    }
  }

  lemma OccursBehind(front: string, tail: string, n: string, p: nat)
    requires OccursAt(tail, n, p)
    ensures OccursAt(front + tail, n, |front| + p)
  {
    assert (front + tail)[|front| + p..|front| + p + |n|] == tail[p..p + |n|];
  }

  lemma NotBefore(front: string, tail: string, anchorLine: string, p: nat, i: nat)
    requires EndsLine(front) && NL !in anchorLine && i < |front| + p
    requires !Contains(front, anchorLine + [NL])
    requires forall j | 0 <= j < p :: !OccursAt(tail, anchorLine + [NL], j)
    ensures !OccursAt(front + tail, anchorLine + [NL], i)
  {
    var anchor, text := anchorLine + [NL], front + tail;
    if OccursAt(text, anchor, i) {
      OneSide(front, tail, anchorLine, i);
    }
  }

  /** An anchor line does not cross the end of a line: it lies before or behind. */
  lemma OneSide(front: string, tail: string, anchorLine: string, i: nat)
    requires EndsLine(front) && NL !in anchorLine && OccursAt(front + tail, anchorLine + [NL], i)
    ensures Contains(front, anchorLine + [NL]) || (i >= |front| && OccursAt(tail, anchorLine + [NL], i - |front|))
  {
    var anchor, text := anchorLine + [NL], front + tail;
    LineAt(text, anchorLine, i);
    assert text[|front| - 1] == NL;
    if i + |anchor| <= |front| {
      assert text[i..i + |anchor|] == front[i..i + |anchor|];
      assert OccursAt(front, anchor, i);
    } else if i >= |front| {
      assert text[i..i + |anchor|] == tail[i - |front|..i - |front| + |anchor|];
    }
  }

  /** An insertion beside a block goes before it or behind it. */
  lemma InsertBesideBlock(front: string, lines: seq<string>, back: string, anchorLine: string, helper: string)
    requires OnLine(front) && EndsLine(helper) && NL !in anchorLine && anchorLine != []
    requires lines != [] && NoLineEnds(lines, anchorLine) && forall i :: 0 <= i < |lines| ==> NL !in lines[i]
    ensures var block := Unlines(lines);
            var inserted := InsertAfter(front + block + back, anchorLine, helper);
            || (inserted == InsertAfter(front, anchorLine, helper) + block + back
                && EndsLine(InsertAfter(front, anchorLine, helper)))
            || inserted == front + block + InsertAfter(back, anchorLine, helper)
  {
    if Find(front, anchorLine + [NL]).Some? {
      InsertedBefore(front, Unlines(lines), back, anchorLine, helper);
    } else {
      NoAnchorBefore(front, lines, anchorLine);
      BlockEnds(front, lines);
      if Find(back, anchorLine + [NL]).Some? {
        InsertedBehind(front + Unlines(lines), back, anchorLine, helper, Find(back, anchorLine + [NL]).value);
      } else {
        NowhereFound(front + Unlines(lines), back, anchorLine);
        InsertedInFront(front, Unlines(lines), back, anchorLine, helper);
      }
    }
  }

  lemma BlockEnds(front: string, lines: seq<string>)
    requires lines != []
    ensures EndsLine(front + Unlines(lines))
  {
    UnlinesEndsLine(lines);
    LastOfBoth(front, Unlines(lines));
  }

  lemma InsertedBefore(front: string, block: string, back: string, anchorLine: string, helper: string)
    requires OnLine(front) && EndsLine(helper) && Find(front, anchorLine + [NL]).Some?
    ensures InsertAfter(front + block + back, anchorLine, helper)
            == InsertAfter(front, anchorLine, helper) + block + back
    ensures EndsLine(InsertAfter(front, anchorLine, helper))
  {
    Associate(front, block, back);
    FoundInFront(front, block + back, anchorLine, helper);
    Associate(InsertAfter(front, anchorLine, helper), block, back);
  }

  lemma FoundInFront(front: string, tail: string, anchorLine: string, helper: string)
    requires OnLine(front) && EndsLine(helper) && Find(front, anchorLine + [NL]).Some?
    ensures InsertAfter(front + tail, anchorLine, helper) == InsertAfter(front, anchorLine, helper) + tail
    ensures EndsLine(InsertAfter(front, anchorLine, helper))
  {
    FoundBefore(front, tail, anchorLine, anchorLine + [NL], helper, Find(front, anchorLine + [NL]).value);
  }

  lemma NoAnchorBefore(front: string, lines: seq<string>, anchorLine: string)
    requires OnLine(front) && NL !in anchorLine && anchorLine != [] && Find(front, anchorLine + [NL]).None?
    requires NoLineEnds(lines, anchorLine) && forall i :: 0 <= i < |lines| ==> NL !in lines[i]
    ensures Find(front + Unlines(lines), anchorLine + [NL]).None?
  {
    BlockLacksLine(lines, anchorLine);
    if front == [] {
      assert front + Unlines(lines) == Unlines(lines);
      FoundIsContained(Unlines(lines), anchorLine + [NL]);
    } else {
      NotFoundBefore(front, Unlines(lines), anchorLine);
    }
  }

  lemma NowhereFound(before: string, back: string, anchorLine: string)
    requires EndsLine(before) && NL !in anchorLine && Find(before, anchorLine + [NL]).None?
    requires Find(back, anchorLine + [NL]).None?
    ensures Find(before + back, anchorLine + [NL]).None?
  {
    FindIsFirst(back, anchorLine + [NL]);
    NotFoundBefore(before, back, anchorLine);
  }

  lemma InsertedBehind(before: string, back: string, anchorLine: string, helper: string, p: nat)
    requires EndsLine(before) && NL !in anchorLine && Find(before, anchorLine + [NL]).None?
    requires Find(back, anchorLine + [NL]) == Some(p)
    ensures InsertAfter(before + back, anchorLine, helper) == before + InsertAfter(back, anchorLine, helper)
  {
    FindIsFirst(before, anchorLine + [NL]);
    FindBehind(before, back, anchorLine, p);
    var q := p + |anchorLine| + 1;
    AnchorFits(back, anchorLine, p, q);
    InsertedAt(before, back, anchorLine, helper, p, q, |before| + p, |before| + q);
  }

  lemma InsertedAt(before: string, back: string, anchorLine: string, helper: string,
                   p: nat, q: nat, r: nat, t: nat)
    requires Find(back, anchorLine + [NL]) == Some(p) && q == p + |anchorLine| + 1 && q <= |back|
    requires Find(before + back, anchorLine + [NL]) == Some(r) && t == r + |anchorLine| + 1 && t == |before| + q
    ensures InsertAfter(before + back, anchorLine, helper) == before + InsertAfter(back, anchorLine, helper)
  {
    InsertedIs(back, anchorLine, helper, p, q);
    InsertedIs(before + back, anchorLine, helper, r, t);
    InsertedBehindCut(before, back, helper, q, t);
  }

  lemma AnchorFits(text: string, anchorLine: string, p: nat, q: nat)
    requires OccursAt(text, anchorLine + [NL], p) && q == p + |anchorLine| + 1
    ensures q <= |text|
  {
  }

  lemma InsertedIs(text: string, anchorLine: string, helper: string, p: nat, q: nat)
    requires Find(text, anchorLine + [NL]) == Some(p) && q == p + |anchorLine| + 1 && q <= |text|
    ensures InsertAfter(text, anchorLine, helper) == text[..q] + helper + text[q..]
  {
    InsertAt(text, anchorLine, anchorLine + [NL], helper, p);
  }

  lemma InsertedBehindCut(before: string, back: string, helper: string, q: nat, t: nat)
    requires q <= |back| && t == |before| + q
    ensures (before + back)[..t] + helper + (before + back)[t..] == before + (back[..q] + helper + back[q..])
  {
    CutBehind(before, back, q);
    Regroup(before, back[..q], helper, back[q..]);
  }

  lemma CutBehind(before: string, back: string, q: nat)
    requires q <= |back|
    ensures (before + back)[..|before| + q] == before + back[..q]
    ensures (before + back)[|before| + q..] == back[q..]
  {
  }

  lemma InsertedInFront(front: string, block: string, back: string, anchorLine: string, helper: string)
    requires OnLine(front) && EndsLine(helper) && Find(front, anchorLine + [NL]).None?
    requires Find(front + block + back, anchorLine + [NL]).None?
    ensures InsertAfter(front + block + back, anchorLine, helper)
            == InsertAfter(front, anchorLine, helper) + block + back
    ensures EndsLine(InsertAfter(front, anchorLine, helper))
  {
    Reassociate(helper + [NL], front, block, back);
  }

  // ------------------------------------------------------------- helpers stay whole

  /** The text holds the helper of pass `j` whole, and no check line of that pass outside it. */
  ghost predicate Holds(j: nat, text: string, front: string, back: string)
    requires j < 5
  {
    && text == front + Unlines(PASSES[j].helper) + back && OnLine(front)
    && forall i :: 0 <= i < |PASSES[j].rules| ==>
         !HasLine(front, PASSES[j].rules[i].check) && !HasLine(back, PASSES[j].rules[i].check)
  }

  lemma PartsLackLine(text: string, q: nat, line: string)
    requires q <= |text| && !HasLine(text, line)
    ensures !HasLine(text[..q], line) && !HasLine(text[q..], line)
  {
    PiecesLack(text, q, q, line + [NL]);
  }

  /** Right after its pass fired, the helper stands whole. */
  lemma HeldAtFirst(text: string, j: nat) returns (front: string, back: string)
    requires j < 5 && Fires(PASSES[j], text)
    ensures Holds(j, Apply(PASSES[j], text), front, back)
  {
    var rewritten := ApplyRules(text, PASSES[j].rules);
    AllShapes();
    forall i | 0 <= i < |PASSES[j].rules| ensures !HasLine(rewritten, PASSES[j].rules[i].check) {
      RulesRemoveCheck(text, PASSES[j].rules, i);
    }
    match Find(rewritten, ANCHOR_LINE + [NL])
    case Some(k) => front, back := HeldBehindAnchor(rewritten, j, k);
    case None => front, back := HeldInFront(rewritten, j);
  }

  lemma HeldBehindAnchor(text: string, j: nat, k: nat) returns (front: string, back: string)
    requires j < 5 && Find(text, ANCHOR_LINE + [NL]) == Some(k)
    requires forall i :: 0 <= i < |PASSES[j].rules| ==> !HasLine(text, PASSES[j].rules[i].check)
    ensures Holds(j, InsertHelper(text, Unlines(PASSES[j].helper)), front, back)
  {
    var q := k + |ANCHOR_LINE| + 1;
    front, back := text[..q], text[q..];
    CutAtLineEnd(text, ANCHOR_LINE, k);
    forall i | 0 <= i < |PASSES[j].rules|
      ensures !HasLine(front, PASSES[j].rules[i].check) && !HasLine(back, PASSES[j].rules[i].check)
    {
      PartsLackLine(text, q, PASSES[j].rules[i].check);
    }
    InsertAt(text, ANCHOR_LINE, ANCHOR_LINE + [NL], Unlines(PASSES[j].helper), k);
  }

  lemma CutAtLineEnd(text: string, line: string, k: nat)
    requires OccursAt(text, line + [NL], k)
    ensures EndsLine(text[..k + |line| + 1])
  {
    OccursElement(text, line + [NL], k, |line|);
  }

  lemma HeldInFront(text: string, j: nat) returns (front: string, back: string)
    requires j < 5 && Find(text, ANCHOR_LINE + [NL]).None?
    requires forall i :: 0 <= i < |PASSES[j].rules| ==> !HasLine(text, PASSES[j].rules[i].check)
    ensures Holds(j, InsertHelper(text, Unlines(PASSES[j].helper)), front, back)
  {
    front, back := [], [NL] + text;
    AllShapes();
    forall i | 0 <= i < |PASSES[j].rules|
      ensures !HasLine([], PASSES[j].rules[i].check) && !HasLine(back, PASSES[j].rules[i].check)
    {
      NoLineBehindBlank(text, PASSES[j].rules[i].check);
    }
    InsertedWithBlank(text, Unlines(PASSES[j].helper));
  }

  lemma InsertedWithBlank(text: string, helper: string)
    requires Find(text, ANCHOR_LINE + [NL]).None?
    ensures InsertHelper(text, helper) == [] + helper + ([NL] + text)
  {
  }

  lemma NoLineBehindBlank(text: string, line: string)
    requires line != [] && NL !in line && !HasLine(text, line)
    ensures !HasLine([], line) && !HasLine([NL] + text, line)
  {
    LineBeside([], text, line);
    LastLine([], line);
    NoLineBreakNoLine([], line);
    assert [] + [NL] + text == [NL] + text && [] + [NL] == [NL];
  }

  /** A later pass leaves the helper whole and adds no check line of the earlier pass. */
  lemma HeldByLater(text: string, front: string, back: string, j: nat, k: nat) returns (front': string, back': string)
    requires j < k < 5 && Holds(j, text, front, back)
    ensures Holds(j, Apply(PASSES[k], text), front', back')
  {
    var q := PASSES[k];
    front', back' := front, back;
    if Fires(q, text) {
      AllShapes();
      EarlierLeavesLater(j, k);
      HelpersNotEmpty(j);
      HelpersNotEmpty(k);
      var lines := PASSES[j].helper;
      var block, f, b := Unlines(lines), ApplyRules(front, q.rules), ApplyRules(back, q.rules);
      RulesAround(front, lines, back, q.rules);
      AnchorLine();
      UnlinesEndsLine(q.helper);
      InsertBesideBlock(f, lines, b, ANCHOR_LINE, Unlines(q.helper));
      if InsertHelper(f + block + b, Unlines(q.helper)) == InsertHelper(f, Unlines(q.helper)) + block + b
         && EndsLine(InsertHelper(f, Unlines(q.helper))) {
        front', back' := InsertHelper(f, Unlines(q.helper)), b;
      } else {
        front', back' := f, InsertHelper(b, Unlines(q.helper));
      }
      forall i | 0 <= i < |PASSES[j].rules|
        ensures !HasLine(front', PASSES[j].rules[i].check) && !HasLine(back', PASSES[j].rules[i].check)
      {
        NoneAdded(front, back, j, k, i);
      }
    }
  }

  lemma RulesAround(front: string, lines: seq<string>, back: string, rules: seq<Rule>)
    requires OnLine(front) && lines != [] && forall i :: 0 <= i < |lines| ==> NL !in lines[i]
    requires forall i :: 0 <= i < |rules| ==> PlainRule(rules[i]) && NoLineEnds(lines, rules[i].check)
    ensures ApplyRules(front + Unlines(lines) + back, rules)
            == ApplyRules(front, rules) + Unlines(lines) + ApplyRules(back, rules)
    ensures OnLine(ApplyRules(front, rules))
  {
    var block := Unlines(lines);
    UnlinesEndsLine(lines);
    Associate(front, block, back);
    RulesDistribute(front, block + back, rules);
    RulesDistribute(block, back, rules);
    RulesKeepBlock(lines, rules);
    Associate(ApplyRules(front, rules), block, ApplyRules(back, rules));
  }

  lemma NoneAdded(front: string, back: string, j: nat, k: nat, i: nat)
    requires j < k < 5 && i < |PASSES[j].rules|
    requires !HasLine(front, PASSES[j].rules[i].check) && !HasLine(back, PASSES[j].rules[i].check)
    ensures var q, line := PASSES[k], PASSES[j].rules[i].check;
            var f, b, h := ApplyRules(front, q.rules), ApplyRules(back, q.rules), Unlines(q.helper);
            && !HasLine(f, line) && !HasLine(b, line)
            && !HasLine(InsertHelper(f, h), line) && !HasLine(InsertHelper(b, h), line)
  {
    var q, line := PASSES[k], PASSES[j].rules[i].check;
    AllShapes();
    LaterLeavesLines(k, j, i);
    RulesKeepLine(front, q.rules, line);
    RulesKeepLine(back, q.rules, line);
    InsertKeepsLine(ApplyRules(front, q.rules), ANCHOR_LINE, q.helper, line);
    InsertKeepsLine(ApplyRules(back, q.rules), ANCHOR_LINE, q.helper, line);
  }

  lemma HeldAfterOwn(text: string, j: nat) returns (front: string, back: string)
    requires j < 5 && Fires(PASSES[j], text)
    ensures Holds(j, Stage(text, j + 1), front, back)
  {
    PassesFireIndependently(text, j);
    front, back := HeldAtFirst(Stage(text, j), j);
  }

  lemma {:induction false} HeldAtStage(text: string, j: nat, k: nat) returns (front: string, back: string)
    requires j < k <= 5 && Fires(PASSES[j], text)
    ensures Holds(j, Stage(text, k), front, back)
  {
    if k == j + 1 {
      front, back := HeldAfterOwn(text, j);
    } else {
      var f, b := HeldAtStage(text, j, k - 1);
      front, back := HeldByLater(Stage(text, k - 1), f, b, j, k - 1);
    }
  }

  // ------------------------------------------------------------- the placeholder

  /** The placeholder replacement works line by line. */
  lemma PlaceholderOnLines(front: string, tail: string)
    requires OnLine(front)
    ensures Replace(front + tail, PLACEHOLDER, PRIVILEGED)
            == Replace(front, PLACEHOLDER, PRIVILEGED) + Replace(tail, PLACEHOLDER, PRIVILEGED)
    ensures OnLine(Replace(front, PLACEHOLDER, PRIVILEGED))
  {
    PlaceholderTexts();
    if front == [] {
      assert front + tail == tail;
    } else {
      assert front == front[..|front| - 1] + [NL];
      ReplaceBehindLine(front[..|front| - 1], tail, PLACEHOLDER, PRIVILEGED);
    }
  }

  lemma ReplaceBehindLine(line: string, tail: string, n: string, r: string)
    requires n != [] && NL !in n
    ensures Replace(line + [NL] + tail, n, r) == Replace(line + [NL], n, r) + Replace(tail, n, r)
    ensures EndsLine(Replace(line + [NL], n, r))
  {
    ReplaceBeside(line, NL, tail, n, r);
    ReplaceBeside(line, NL, [], n, r);
    assert line + [NL] + [] == line + [NL];
    assert Replace(line + [NL], n, r) == Replace(line, n, r) + [NL];
  }

  lemma {:induction false} UnlinesLack(lines: seq<string>, c: char)
    requires c != NL && forall i :: 0 <= i < |lines| ==> c !in lines[i]
    ensures c !in Unlines(lines)
  {
    if lines == [] {
    } else {
      UnlinesLack(lines[1..], c);
    }
  }

  lemma HelperLacksDollar(j: nat)
    requires j < 5
    ensures forall i :: 0 <= i < |PASSES[j].helper| ==> '$' !in PASSES[j].helper[i]
  {
    PidnsFree();
    RootfsFree();
    StorageFree();
    SandboxPlain();
    ExtraFree();
    PassesInOrder();
  }

  lemma HelperKept(j: nat)
    requires j < 5
    ensures Replace(Unlines(PASSES[j].helper), PLACEHOLDER, PRIVILEGED) == Unlines(PASSES[j].helper)
  {
    HelperLacksDollar(j);
    UnlinesLack(PASSES[j].helper, '$');
    LacksPlaceholder(Unlines(PASSES[j].helper));
  }

  lemma LacksPlaceholder(text: string)
    requires '$' !in text
    ensures Replace(text, PLACEHOLDER, PRIVILEGED) == text
  {
    assert PLACEHOLDER[5] == '$';
    ContainsElements(text, PLACEHOLDER);
    ReplaceAbsent(text, PLACEHOLDER, PRIVILEGED);
  }

  lemma PidnsLacksQuote()
    ensures FreeOf(PIDNS_RULE.check, "\"")
  {
  }

  lemma CheckLacksQuote(j: nat, i: nat)
    requires j < 5 && i < |PASSES[j].rules|
    ensures '"' !in PASSES[j].rules[i].check
  {
    PidnsLacksQuote();
    ChecksLackW();
    PassesInOrder();
  }

  /** The replacement makes no line end with a check. */
  lemma PlaceholderAddsNoCheck(text: string, j: nat, i: nat)
    requires j < 5 && i < |PASSES[j].rules| && !HasLine(text, PASSES[j].rules[i].check)
    ensures !HasLine(Replace(text, PLACEHOLDER, PRIVILEGED), PASSES[j].rules[i].check)
  {
    var check, inner := PASSES[j].rules[i].check, "$(privileged" + "_caps)";
    CheckLacksQuote(j, i);
    PlaceholderTexts();
    NoLineBreakNoLine(inner, check);
    ReplaceMakesNoWord(text, PLACEHOLDER, '"', inner, check + [NL]);
  }

  /** A replacement in quotes of a needle in quotes keeps every word that lies in neither quote. */
  lemma {:induction false} ReplaceKeepsWord(s: string, quote: char, from: string, to: string, word: string)
    requires word != [] && quote !in word && !Contains(from, word)
    ensures Contains(s, word) ==>
              Contains(Replace(s, [quote] + from + [quote], [quote] + to + [quote]), word)
    decreases |s|
  {
    var n, r := [quote] + from + [quote], [quote] + to + [quote];
    if Find(s, n).None? {
      FindIsFirst(s, n);
      ReplaceAbsent(s, n, r);
    } else if Contains(s, word) {
      var p := Find(s, n).value;
      var rest := s[p + |n|..];
      ReplaceFirst(s, n, r);
      ReplaceKeepsWord(rest, quote, from, to, word);
      assert s == s[..p] + n + rest;
      AroundQuotes(s[..p], quote, from, rest, word);
      WordInEither(s[..p], r, Replace(rest, n, r), word);
    }
  }

  lemma AroundQuotes(before: string, quote: char, from: string, rest: string, word: string)
    requires word != [] && quote !in word && !Contains(from, word)
    requires Contains(before + ([quote] + from + [quote]) + rest, word)
    ensures Contains(before, word) || Contains(rest, word)
  {
    var tail := from + [quote] + rest;
    assert before + ([quote] + from + [quote]) + rest == before + [quote] + tail;
    ContainsBeside(before, quote, tail, word);
    ContainsBeside(from, quote, rest, word);
  }

  lemma WordInEither(before: string, r: string, done: string, word: string)
    requires Contains(before, word) || Contains(done, word)
    ensures Contains(before + r + done, word)
  {
    if Contains(before, word) {
      ContainsInside([], before, r + done, word);
      assert [] + before + (r + done) == before + r + done;
    } else {
      ContainsInside(before + r, done, [], word);
      assert before + r + done + [] == before + r + done;
    }
  }

  lemma MarkerApart(j: nat)
    requires j < 5
    ensures '"' !in PASSES[j].marker && PlainWord(PASSES[j].marker)
    ensures !Contains(PLACEHOLDER_WORD, PASSES[j].marker)
  {
    MarkersHaveW();
    MarkerLacksQuote(j);
    PlaceholderLacksW();
    WordAbsent(PLACEHOLDER_WORD, "w", 'w', PASSES[j].marker);
  }

  /** The placeholder without its quotes. */
  const PLACEHOLDER_WORD: string := "CAP_$(privileged" + "_caps)"

  lemma PlaceholderInQuotes()
    ensures PLACEHOLDER == ['"'] + PLACEHOLDER_WORD + ['"']
  {
  }

  lemma PlaceholderLacksW()
    ensures FreeOf(PLACEHOLDER_WORD, "w")
  {
  }

  lemma MarkerLacksQuote(j: nat)
    requires j < 5
    ensures '"' !in PASSES[j].marker
  {
    PassesInOrder();
    MarkersLackQuote();
  }

  lemma MarkersLackQuote()
    ensures FreeOf(PIDNS, "\"") && FreeOf(ROOTFS, "\"") && FreeOf(MOUNT, "\"")
    ensures FreeOf(SANDBOX, "\"") && FreeOf(EXTRA, "\"")
  {
  }

  lemma PlaceholderKeepsMarker(text: string, j: nat)
    requires j < 5 && Contains(text, PASSES[j].marker)
    ensures Contains(Replace(text, PLACEHOLDER, PRIVILEGED), PASSES[j].marker)
  {
    MarkerApart(j);
    PlaceholderTexts();
    PlaceholderInQuotes();
    ReplaceKeepsWord(text, '"', PLACEHOLDER_WORD, "$(privileged" + "_caps)", PASSES[j].marker);
  }

  // -------------------------------------------------------------- the layout line

  /** The finished policy starts with the layout line, its line break included. */
  lemma FinishedStartsWithLayout(text: string)
    ensures "# enclava-cap-volume-layout: guest-memory-v2\n" <= Finished(text)
  {
    assert LAYOUT_LINE + [NL] == "# enclava-cap-volume-layout: guest-memory-v2\n";
  }

  lemma LastOfCheck(j: nat, i: nat)
    requires j < 5 && i < |PASSES[j].rules|
    ensures PASSES[j].rules[i].check != [] && NL !in PASSES[j].rules[i].check
    ensures PASSES[j].rules[i].check[|PASSES[j].rules[i].check| - 1] != '2'
  {
    CheckOfPass(j, i);
    CheckEnds(PASSES[j].rules[i].check);
  }

  lemma CheckOfPass(j: nat, i: nat)
    requires j < 5 && i < |PASSES[j].rules|
    ensures PASSES[j].rules[i].check in
            [PIDNS_RULE.check, ROOTFS_RULE.check, MOUNT_RULE.check, FS_GROUP_RULE.check, OPTIONS_RULE.check,
             SANDBOX_RULE.check, EXTRA_RULE.check]
  {
    PassesInOrder();
  }

  lemma CheckEnds(check: string)
    requires check in
             [PIDNS_RULE.check, ROOTFS_RULE.check, MOUNT_RULE.check, FS_GROUP_RULE.check, OPTIONS_RULE.check,
              SANDBOX_RULE.check, EXTRA_RULE.check]
    ensures check != [] && NL !in check && check[|check| - 1] != '2'
  {
    PidnsCheck();
    RootfsCheck();
    MountCheck();
    GroupCheck();
    OptionsCheck();
    SandboxCheck();
    PlainChecks();
    ExtraRuleEnds();
  }

  lemma LayoutLineEnd()
    ensures LAYOUT_LINE != [] && NL !in LAYOUT_LINE && LAYOUT_LINE[|LAYOUT_LINE| - 1] == '2'
  {
  }

  lemma LayoutAddsNoCheck(text: string, j: nat, i: nat)
    requires j < 5 && i < |PASSES[j].rules| && !HasLine(text, PASSES[j].rules[i].check)
    ensures !HasLine(LAYOUT_LINE + [NL] + text, PASSES[j].rules[i].check)
  {
    var check := PASSES[j].rules[i].check;
    LastOfCheck(j, i);
    LayoutLineEnd();
    Differ(LAYOUT_LINE, check, 0);
    LastLine(LAYOUT_LINE, check);
    LineBeside(LAYOUT_LINE, text, check);
  }

  // ------------------------------------------------------------------ main results

  /** A pass that fires leaves its marker, its helper whole and no check line of its own
      outside the helper, in the finished text. */
  lemma FinishedHolds(text: string, j: nat)
    requires j < 5 && Fires(PASSES[j], text)
    ensures exists front, back :: Holds(j, Finished(text), front, back)
    ensures Contains(Finished(text), PASSES[j].marker)
  {
    var f, b := HeldAtStage(text, j, 5);
    var block := Unlines(PASSES[j].helper);
    var front, back := LAYOUT_LINE + [NL] + Replace(f, PLACEHOLDER, PRIVILEGED), Replace(b, PLACEHOLDER, PRIVILEGED);
    ReplacedAround(f, PASSES[j].helper, b, j);
    Reassociate(LAYOUT_LINE + [NL], Replace(f, PLACEHOLDER, PRIVILEGED), block, back);
    AfterLayout(Replace(f, PLACEHOLDER, PRIVILEGED));
    forall i | 0 <= i < |PASSES[j].rules|
      ensures !HasLine(front, PASSES[j].rules[i].check) && !HasLine(back, PASSES[j].rules[i].check)
    {
      PlaceholderAddsNoCheck(f, j, i);
      PlaceholderAddsNoCheck(b, j, i);
      LayoutAddsNoCheck(Replace(f, PLACEHOLDER, PRIVILEGED), j, i);
    }
    assert Holds(j, Finished(text), front, back);
    MarkerInHelper(front, back, j);
  }

  lemma ReplacedAround(f: string, helper: seq<string>, b: string, j: nat)
    requires j < 5 && OnLine(f) && helper == PASSES[j].helper
    ensures Replace(f + Unlines(helper) + b, PLACEHOLDER, PRIVILEGED)
            == Replace(f, PLACEHOLDER, PRIVILEGED) + Unlines(helper) + Replace(b, PLACEHOLDER, PRIVILEGED)
    ensures OnLine(Replace(f, PLACEHOLDER, PRIVILEGED))
  {
    Associate(f, Unlines(helper), b);
    PlaceholderOnLines(f, Unlines(helper) + b);
    HelpersNotEmpty(j);
    UnlinesEndsLine(helper);
    PlaceholderOnLines(Unlines(helper), b);
    HelperKept(j);
    Associate(Replace(f, PLACEHOLDER, PRIVILEGED), Unlines(helper), Replace(b, PLACEHOLDER, PRIVILEGED));
  }

  lemma AfterLayout(text: string)
    requires OnLine(text)
    ensures OnLine(LAYOUT_LINE + [NL] + text)
  {
    if text != [] {
      LastOfBoth(LAYOUT_LINE + [NL], text);
    }
  }

  lemma MarkerInHelper(front: string, back: string, j: nat)
    requires j < 5
    ensures Contains(front + Unlines(PASSES[j].helper) + back, PASSES[j].marker)
  {
    AllShapes();
    assert WellShaped(PASSES[j]);
    WordsOf(PASSES[j].helper, back, PASSES[j].marker);
    ContainsInside(front, Unlines(PASSES[j].helper) + back, [], PASSES[j].marker);
    assert front + (Unlines(PASSES[j].helper) + back) + [] == front + Unlines(PASSES[j].helper) + back;
  }

  /** No pass fires on the finished text. */
  lemma NoneFiresOnFinished(text: string)
    ensures forall j :: 0 <= j < 5 ==> !Fires(PASSES[j], Finished(text))
  {
    NoneFiresAfterChain(text);
    forall j | 0 <= j < 5 ensures !Fires(PASSES[j], Finished(text)) {
      FinishingMakesNoneFire(Stage(text, 5), j);
    }
  }

  lemma FinishingMakesNoneFire(text: string, j: nat)
    requires j < 5 && !Fires(PASSES[j], text)
    ensures !Fires(PASSES[j], LAYOUT_LINE + [NL] + Replace(text, PLACEHOLDER, PRIVILEGED))
  {
    var replaced := Replace(text, PLACEHOLDER, PRIVILEGED);
    if Contains(text, PASSES[j].marker) {
      PlaceholderKeepsMarker(text, j);
      ContainsInside(LAYOUT_LINE + [NL], replaced, [], PASSES[j].marker);
      assert LAYOUT_LINE + [NL] + replaced + [] == LAYOUT_LINE + [NL] + replaced;
    } else {
      forall i | 0 <= i < |PASSES[j].rules|
        ensures !HasLine(LAYOUT_LINE + [NL] + replaced, PASSES[j].rules[i].check)
      {
        PlaceholderAddsNoCheck(text, j, i);
        LayoutAddsNoCheck(replaced, j, i);
      }
    }
  }

  // -------------------------------------------------------- rules and data apart

  /** No pass that fires on the rules has its marker in the tail. */
  ghost predicate MarkersApart(front: string, tail: string) {
    forall j :: 0 <= j < 5 && Fires(PASSES[j], front) ==> !Contains(tail, PASSES[j].marker)
  }

  lemma WordOnEitherSide(front: string, tail: string, word: string)
    requires EndsLine(front) && word != [] && NL !in word
    ensures Contains(front + tail, word) <==> Contains(front, word) || Contains(tail, word)
  {
    var line := front[..|front| - 1];
    assert front == line + [NL] == line + [NL] + [];
    ContainsBeside(line, NL, tail, word);
    ContainsBeside(line, NL, [], word);
    ContainsElements([], word);
    assert word[0] in word;
  }

  lemma LineOnEitherSide(front: string, tail: string, line: string)
    requires EndsLine(front) && NL !in line
    ensures HasLine(front + tail, line) <==> HasLine(front, line) || HasLine(tail, line)
  {
    var last := front[..|front| - 1];
    assert front == last + [NL];
    LineBeside(last, tail, line);
  }

  /** In front of an untouched tail a pass fires as on the rules alone, unless the tail holds its
      marker. */
  lemma FiresInFront(front: string, tail: string, j: nat)
    requires j < 5 && EndsLine(front) && Untouched(tail)
    ensures Fires(PASSES[j], front + tail) <==> Fires(PASSES[j], front) && !Contains(tail, PASSES[j].marker)
  {
    AllShapes();
    assert WellShaped(PASSES[j]);
    WordOnEitherSide(front, tail, PASSES[j].marker);
    forall i | 0 <= i < |PASSES[j].rules|
      ensures HasLine(front + tail, PASSES[j].rules[i].check) <==> HasLine(front, PASSES[j].rules[i].check)
    {
      assert PlainRule(PASSES[j].rules[i]);
      LineOnEitherSide(front, tail, PASSES[j].rules[i].check);
    }
  }

  /** A pass works on the rules as if there were no tail, exactly when it would not fire on them or
      its marker is not in the tail. */
  lemma PassOnRulesExactly(front: string, tail: string, j: nat)
    requires j < 5 && EndsLine(front) && Untouched(tail)
    ensures Apply(PASSES[j], front + tail) == Apply(PASSES[j], front) + tail
            <==> !(Fires(PASSES[j], front) && Contains(tail, PASSES[j].marker))
    ensures EndsLine(Apply(PASSES[j], front))
  {
    FiresInFront(front, tail, j);
    AllShapes();
    if Fires(PASSES[j], front) {
      HelperBefore(front, tail, j);
      if Contains(tail, PASSES[j].marker) {
        Idempotent(PASSES[j], front);
        SameFront(front, Apply(PASSES[j], front), tail);
      }
    }
  }

  lemma SameFront(a: string, b: string, tail: string)
    ensures a + tail == b + tail ==> a == b
  {
    if a + tail == b + tail {
      Halves(a, tail);
      Halves(b, tail);
    }
  }

  lemma HelperBefore(front: string, tail: string, j: nat)
    requires j < 5 && EndsLine(front) && Untouched(tail)
    ensures var h := Unlines(PASSES[j].helper);
            && InsertHelper(ApplyRules(front + tail, PASSES[j].rules), h)
               == InsertHelper(ApplyRules(front, PASSES[j].rules), h) + tail
            && EndsLine(InsertHelper(ApplyRules(front, PASSES[j].rules), h))
  {
    AllShapes();
    assert WellShaped(PASSES[j]);
    HelpersNotEmpty(j);
    RulesBefore(front, tail, PASSES[j].rules);
    UnlinesEndsLine(PASSES[j].helper);
    AnchorLine();
    InsertBefore(ApplyRules(front, PASSES[j].rules), tail, ANCHOR_LINE, Unlines(PASSES[j].helper));
  }

  lemma {:induction false} StageOnRules(front: string, tail: string, k: nat)
    requires k <= 5 && EndsLine(front) && Untouched(tail) && MarkersApart(front, tail)
    ensures Stage(front + tail, k) == Stage(front, k) + tail && EndsLine(Stage(front, k))
  {
    if k == 0 {
    } else {
      StageOnRules(front, tail, k - 1);
      PassesFireIndependently(front, k - 1);
      PassOnRulesExactly(Stage(front, k - 1), tail, k - 1);
    }
  }

  /** With data behind the separator, the rules of the finished text are the layout line and what
      the chain makes of the rules, placeholder replaced. */
  lemma FinishedRules(rules: string, data: string)
    requires InertData(data) && MarkersApart(rules + [NL], SEPARATOR_LINE + data)
    ensures Finished(rules + SEPARATOR + data)
            == LAYOUT_LINE + [NL] + Replace(Stage(rules + [NL], 5), PLACEHOLDER, PRIVILEGED)
               + SEPARATOR_LINE + Replace(data, PLACEHOLDER, PRIVILEGED)
  {
    var after := Stage(rules + [NL], 5);
    SeparatorParts(rules, data);
    StageOnRules(rules + [NL], SEPARATOR_LINE + data, 5);
    PlaceholderOnLines(after, SEPARATOR_LINE + data);
    PlaceholderTexts();
    ReplaceBehind(SEPARATOR_LINE, data, PLACEHOLDER, PRIVILEGED);
    Regrouped(LAYOUT_LINE + [NL], Replace(after, PLACEHOLDER, PRIVILEGED), SEPARATOR_LINE,
              Replace(data, PLACEHOLDER, PRIVILEGED));
  }

  lemma Regrouped(a: string, b: string, c: string, d: string)
    ensures a + (b + (c + d)) == a + b + c + d
  {
  }

  // -------------------------------------------------------- when the passes fire

  lemma PidnsTexts()
    ensures PIDNS == "allow_cap_sandbox_pidns"
    ensures PIDNS_RULE.check + [NL] == "    p_pidns == i_pidns\n"
  {
  }

  lemma RootfsTexts()
    ensures ROOTFS == "allow_cap_rootfs_propagation"
    ensures ROOTFS_RULE.check + [NL] == "    count(i_linux.RootfsPropagation) == 0\n"
  {
    RootfsWord();
  }

  lemma RootfsWord()
    ensures ROOTFS == "allow_cap_rootfs_propagation"
  {
  }

  lemma MountTexts()
    ensures MOUNT == "allow_cap_mount_options"
    ensures MOUNT_RULE.check + [NL] == "    p_mount.options == i_mount.options\n"
  {
  }

  lemma GroupTexts()
    ensures FS_GROUP_RULE.check + [NL] == "    p_storage.fs_group" + "       == " + "i_storage.fs_group\n"
  {
    GroupPieces();
    var gap, equals := "      ", " == ";
    var left, right := "p_storage.fs_group", "i_storage.fs_group";
    assert FS_GROUP_RULE.check == "    " + (left + gap) + equals + right;
    FourParts("    ", left, gap, equals, right);
  }

  lemma GroupPieces()
    ensures "    " + "p_storage.fs_group" == "    p_storage.fs_group"
    ensures "      " + " == " == "       == "
    ensures "i_storage.fs_group" + [NL] == "i_storage.fs_group\n"
  {
  }

  lemma FourParts(indent: string, left: string, gap: string, equals: string, right: string)
    ensures indent + (left + gap) + equals + right + [NL] == (indent + left) + (gap + equals) + (right + [NL])
  {
  }

  lemma OptionsTexts()
    ensures OPTIONS_RULE.check + [NL] == "    p_storage.options == i_storage.options\n"
  {
  }

  lemma SandboxTexts()
    ensures SANDBOX == "allow_cap_sandbox_storage"
    ensures SANDBOX_RULE.check + [NL] == "    i_storage == p_storage\n"
  {
  }

  lemma ExtraTexts()
    ensures EXTRA == "allow_cap_extra_storage"
    ensures EXTRA_RULE.check + [NL] == "    p_count == i_count - img_pull_count\n"
  {
  }

  lemma OneRuleFires(p: Pass, text: string)
    requires |p.rules| == 1
    ensures Fires(p, text) <==> !Contains(text, p.marker) && Contains(text, p.rules[0].check + [NL])
  {
    assert HasLine(text, p.rules[0].check) == Contains(text, p.rules[0].check + [NL]);
  }

  lemma ThreeRulesFire(p: Pass, text: string)
    requires |p.rules| == 3
    ensures Fires(p, text) <==>
            && !Contains(text, p.marker)
            && (Contains(text, p.rules[0].check + [NL]) || Contains(text, p.rules[1].check + [NL])
                || Contains(text, p.rules[2].check + [NL]))
  {
    assert HasLine(text, p.rules[0].check) == Contains(text, p.rules[0].check + [NL]);
    assert HasLine(text, p.rules[1].check) == Contains(text, p.rules[1].check + [NL]);
    assert HasLine(text, p.rules[2].check) == Contains(text, p.rules[2].check + [NL]);
  }

  /** When each of the five passes fires, on the words and lines themselves. */
  lemma FiringMeans(text: string)
    ensures Fires(PASSES[0], text) <==>
            !Contains(text, "allow_cap_sandbox_pidns") && Contains(text, "    p_pidns == i_pidns\n")
    ensures Fires(PASSES[1], text) <==>
            && !Contains(text, "allow_cap_rootfs_propagation")
            && Contains(text, "    count(i_linux.RootfsPropagation) == 0\n")
    ensures Fires(PASSES[3], text) <==>
            !Contains(text, "allow_cap_sandbox_storage") && Contains(text, "    i_storage == p_storage\n")
    ensures Fires(PASSES[4], text) <==>
            && !Contains(text, "allow_cap_extra_storage")
            && Contains(text, "    p_count == i_count - img_pull_count\n")
  {
    PassesInOrder();
    PidnsTexts();
    RootfsTexts();
    SandboxTexts();
    ExtraTexts();
    OneRuleFires(SANDBOX_PIDNS, text);
    OneRuleFires(ROOTFS_PROPAGATION, text);
    OneRuleFires(SANDBOX_STORAGES, text);
    OneRuleFires(EXTRA_STORAGES, text);
  }

  lemma StorageFiringMeans(text: string)
    ensures Fires(PASSES[2], text) <==>
            && !Contains(text, "allow_cap_mount_options")
            && (Contains(text, "    p_mount.options == i_mount.options\n")
                || Contains(text, "    p_storage.fs_group" + "       == " + "i_storage.fs_group\n")
                || Contains(text, "    p_storage.options == i_storage.options\n"))
  {
    PassesInOrder();
    MountTexts();
    GroupTexts();
    OptionsTexts();
    ThreeRulesFire(STORAGE_MOUNTS, text);
  }
}
