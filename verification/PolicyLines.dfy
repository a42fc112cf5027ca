/** Line-shaped rewriting of policy text: rules that replace a line ending by other lines,
    and helpers inserted at a line boundary (signing-service/src/genpolicy.rs). */
module PolicyLines {
  import opened Bytes
  import opened TextRewriting

  const NL: char := '\n'

  /** Every line followed by a line break. */
  function Unlines(lines: seq<string>): string {
    if lines == [] then [] else lines[0] + [NL] + Unlines(lines[1..])
  }

  /** The text contains the given line ending, line break included. */
  predicate HasLine(text: string, line: string) {
    Contains(text, line + [NL])
  }

  /** Replaces the end of every line that ends with `check`, line break included, by the
      lines of `allow`. */
  datatype Rule = Rule(check: string, allow: seq<string>)

  function ApplyRule(text: string, rule: Rule): string {
    Replace(text, rule.check + [NL], Unlines(rule.allow))
  }

  const ANCHOR_LINE: string := "default AllowRequestsFailingPolicy := false"

  /** Inserts a helper after the first anchor line, or in front when there is none. */
  function InsertAfter(text: string, anchorLine: string, helper: string): string {
    var anchor := anchorLine + [NL];
    match Find(text, anchor)
    case Some(p) => text[..p + |anchor|] + helper + text[p + |anchor|..]
    case None => helper + [NL] + text
  }

  function InsertHelper(text: string, helper: string): string {
    InsertAfter(text, ANCHOR_LINE, helper)
  }

  /** The text is cut behind the first occurrence of the anchor. */
  ghost predicate CutBehindFirst(text: string, anchor: string, front: string, back: string) {
    text == front + anchor + back && forall i :: 0 <= i < |front| ==> !OccursAt(text, anchor, i)
  }

  /** The helper stands behind the first anchor or, in a text without one, in front on lines of
      its own. */
  ghost predicate InsertedFirst(text: string, anchor: string, helper: string, patched: string) {
    || (exists front, back :: CutBehindFirst(text, anchor, front, back)
                              && patched == front + anchor + helper + back)
    || (!Contains(text, anchor) && patched == helper + [NL] + text)
  }

  lemma InsertHelperFirst(text: string, anchorLine: string, helper: string)
    ensures InsertedFirst(text, anchorLine + [NL], helper, InsertAfter(text, anchorLine, helper))
  {
    var anchor := anchorLine + [NL];
    FindIsFirst(text, anchor);
    if Find(text, anchor).Some? {
      CutAtFound(text, anchor, Find(text, anchor).value);
    }
  }

  lemma CutAtFound(text: string, anchor: string, p: nat)
    requires OccursAt(text, anchor, p) && forall i :: 0 <= i < p ==> !OccursAt(text, anchor, i)
    ensures CutBehindFirst(text, anchor, text[..p], text[p + |anchor|..])
    ensures text[..p + |anchor|] == text[..p] + anchor
  {
    assert text[..p + |anchor|] == text[..p] + anchor;
    assert text == text[..p + |anchor|] + text[p + |anchor|..];
  }

  /** The insertion as written: a buffer that is extended three times. */
  method InsertPolicyHelper(text: string, helper: string) returns (patched: string)
    ensures InsertedFirst(text, ANCHOR_LINE + [NL], helper, patched)
    ensures patched == InsertHelper(text, helper)
  {
    var anchor := ANCHOR_LINE + [NL];
    var found := Find(text, anchor);
    match found {
      case Some(p) =>
        var insertAt := p + |anchor|;
        patched := [];
        patched := patched + text[..insertAt];
        patched := patched + helper;
        patched := patched + text[insertAt..];
        assert [] + text[..insertAt] == text[..insertAt];
      case None =>
        patched := helper + [NL] + text;
    }
    InsertHelperFirst(text, ANCHOR_LINE, helper);
  }

  /** Takes out a helper that was inserted after the anchor line or in front. */
  function RemoveAfter(text: string, anchorLine: string, helper: string): string {
    var anchor := anchorLine + [NL];
    match Find(text, anchor)
    case Some(p) =>
      if p + |anchor| + |helper| <= |text| then text[..p + |anchor|] + text[p + |anchor| + |helper|..]
      else text
    case None => if |helper| < |text| then text[|helper| + 1..] else text
  }

  function RemoveHelper(text: string, helper: string): string {
    RemoveAfter(text, ANCHOR_LINE, helper)
  }

  // ------------------------------------------------------------- lines of a text

  /** The first line of a text that has a line break. */
  lemma FirstLine(text: string) returns (line: string, rest: string)
    requires NL in text
    ensures text == line + [NL] + rest && NL !in line && |rest| < |text|
  {
    if text[0] == NL {
      line, rest := [], text[1..];
    } else {
      line, rest := FirstLine(text[1..]);
      line := [text[0]] + line;
    }
  }

  lemma LineAt(s: string, line: string, i: nat)
    requires NL !in line && OccursAt(s, line + [NL], i)
    ensures s[i + |line|] == NL
    ensures forall j :: i <= j < i + |line| ==> s[j] != NL
  {
    var n := line + [NL];
    assert s[i..i + |n|] == n;
    assert s[i..i + |n|][|line|] == NL;
    forall j | i <= j < i + |line| ensures s[j] != NL {
      assert s[i..i + |n|][j - i] == line[j - i];
    }
  }

  /** An occurrence of a line ending lies on one side of a line break. */
  lemma LineBeside(a: string, b: string, line: string)
    requires NL !in line
    ensures HasLine(a + [NL] + b, line) <==> HasLine(a + [NL], line) || HasLine(b, line)
  {
    var s, n := a + [NL] + b, line + [NL];
    if HasLine(s, line) {
      var i :| 0 <= i <= |s| && OccursAt(s, n, i);
      LineAt(s, line, i);
      assert s[|a|] == NL;
      if i + |line| <= |a| {
        assert (a + [NL])[i..i + |n|] == s[i..i + |n|];
        assert OccursAt(a + [NL], n, i);
      } else {
        assert i > |a|;
        assert b[i - |a| - 1..i - |a| - 1 + |n|] == s[i..i + |n|];
        assert OccursAt(b, n, i - |a| - 1);
      }
    }
    if HasLine(a + [NL], line) {
      ContainsInside([], a + [NL], b, n);
      assert [] + (a + [NL]) + b == s;
    }
    if HasLine(b, line) {
      ContainsInside(a + [NL], b, [], n);
      assert a + [NL] + b + [] == s;
    }
  }

  lemma LastLine(a: string, line: string)
    requires NL !in a && NL !in line
    ensures HasLine(a + [NL], line) <==> EndsWith(a, line)
  {
    var s, n := a + [NL], line + [NL];
    if HasLine(s, line) {
      var i :| 0 <= i <= |s| && OccursAt(s, n, i);
      LineAt(s, line, i);
      assert i + |line| == |a|;
      OccursPrefix(s, line, [NL], i);
      assert a[i..] == s[i..i + |line|];
    }
    if EndsWith(a, line) {
      var i := |a| - |line|;
      assert s[i..i + |n|] == a[i..] + [NL];
      assert OccursAt(s, n, i);
    }
  }

  lemma NoLineBreakNoLine(a: string, line: string)
    requires NL !in a
    ensures !HasLine(a, line)
  {
    ContainsElements(a, line + [NL]);
    assert NL in line + [NL];
  }

  lemma ContainsElements(s: string, n: string)
    ensures Contains(s, n) ==> forall c :: c in n ==> c in s
  {
    if Contains(s, n) {
      var i :| 0 <= i <= |s| && OccursAt(s, n, i);
      forall c | c in n ensures c in s {
        var j :| 0 <= j < |n| && n[j] == c;
        assert s[i..i + |n|][j] == s[i + j];
      }
    }
  }

  lemma {:induction false} LinesOf(lines: seq<string>, rest: string, line: string)
    requires NL !in line && forall i :: 0 <= i < |lines| ==> NL !in lines[i]
    ensures HasLine(Unlines(lines) + rest, line) <==>
            (exists i :: 0 <= i < |lines| && EndsWith(lines[i], line)) || HasLine(rest, line)
  {
    if lines == [] {
      assert Unlines(lines) + rest == rest;
    } else {
      var tail := Unlines(lines[1..]) + rest;
      assert Unlines(lines) + rest == lines[0] + [NL] + tail;
      LineBeside(lines[0], tail, line);
      LastLine(lines[0], line);
      LinesOf(lines[1..], rest, line);
      assert forall i :: 0 < i < |lines| ==> lines[i] == lines[1..][i - 1];
      if i :| 0 <= i < |lines[1..]| && EndsWith(lines[1..][i], line) {
        assert EndsWith(lines[i + 1], line);
      }
    }
  }

  lemma {:induction false} WordsOf(lines: seq<string>, rest: string, word: string)
    requires word != [] && NL !in word
    ensures Contains(Unlines(lines) + rest, word) <==>
            (exists i :: 0 <= i < |lines| && Contains(lines[i], word)) || Contains(rest, word)
  {
    if lines == [] {
      assert Unlines(lines) + rest == rest;
    } else {
      var tail := Unlines(lines[1..]) + rest;
      assert Unlines(lines) + rest == lines[0] + [NL] + tail;
      ContainsBeside(lines[0], NL, tail, word);
      WordsOf(lines[1..], rest, word);
      assert forall i :: 0 < i < |lines| ==> lines[i] == lines[1..][i - 1];
      if i :| 0 <= i < |lines[1..]| && Contains(lines[1..][i], word) {
        assert Contains(lines[i + 1], word);
      }
    }
  }

  // ----------------------------------------------------- replacement, line by line

  /** What a replacement of `check` and a line break by `r` makes of one line. */
  function RewriteLine(line: string, check: string, r: string): string {
    if EndsWith(line, check) then line[..|line| - |check|] + r else line + [NL]
  }

  function RewriteLines(lines: seq<string>, check: string, r: string): string {
    if |lines| == 0 then []
    else if |lines| == 1 then lines[0]
    else RewriteLine(lines[0], check, r) + RewriteLines(lines[1..], check, r)
  }

  lemma RewriteLineStep(a: string, check: string, r: string)
    requires a != [] && a != check
    ensures RewriteLine(a, check, r) == [a[0]] + RewriteLine(a[1..], check, r)
  {
    assert a == [a[0]] + a[1..];
    EndsWithStep(a, check);
    if EndsWith(a, check) {
      PrefixOfTail(a, |a| - |check|);
      Associate([a[0]], a[1..][..|a[1..]| - |check|], r);
    } else {
      Associate([a[0]], a[1..], [NL]);
    }
  }

  lemma EndsWithStep(a: string, check: string)
    requires a != [] && a != check
    ensures EndsWith(a, check) <==> EndsWith(a[1..], check)
  {
    if |check| < |a| {
      TailOfTail(a, |a| - 1 - |check|);
    } else if |check| == |a| {
      assert a[0..] == a;
    }
  }

  lemma Associate(a: string, b: string, c: string)
    ensures a + (b + c) == a + b + c
  {
  }

  /** A text starts with a line-shaped needle exactly when its first line is the needle. */
  lemma LinePrefix(a: string, rest: string, check: string)
    requires NL !in a && NL !in check
    ensures check + [NL] <= a + [NL] + rest <==> check == a
  {
    var s, n := a + [NL] + rest, check + [NL];
    if n <= s {
      LineAt(s, check, 0);
      assert s[|a|] == NL;
      assert |check| == |a|;
      assert a == s[..|a|] == n[..|a|] == check;
    }
  }

  lemma {:induction false} ReplaceLine(a: string, rest: string, check: string, r: string)
    requires NL !in a && NL !in check && check != []
    ensures Replace(a + [NL] + rest, check + [NL], r)
            == RewriteLine(a, check, r) + Replace(rest, check + [NL], r)
  {
    var s, n := a + [NL] + rest, check + [NL];
    LinePrefix(a, rest, check);
    if a == check {
      assert s[|n|..] == rest;
      assert a[..0] + r == r && a[|a| - |check|..] == a;
    } else if a == [] {
      assert s[1..] == rest;
    } else {
      assert s[1..] == a[1..] + [NL] + rest;
      ReplaceLine(a[1..], rest, check, r);
      RewriteLineStep(a, check, r);
    }
  }

  lemma ReplaceNoLine(a: string, check: string, r: string)
    requires NL !in a
    ensures Replace(a, check + [NL], r) == a
  {
    NoLineBreakNoLine(a, check);
    ReplaceAbsent(a, check + [NL], r);
  }

  /** Byte-level replacement with a line-shaped needle is a suffix rewrite of each line. */
  lemma {:induction false} ReplaceIsPerLine(text: string, check: string, r: string)
    requires NL !in check && check != []
    ensures Replace(text, check + [NL], r) == RewriteLines(Split(text, NL), check, r)
    decreases |text|
  {
    if NL !in text {
      SplitPrepend(text, NL, []);
      ReplaceNoLine(text, check, r);
    } else {
      var line, rest := FirstLine(text);
      SplitPrepend(line, NL, rest);
      assert Split(text, NL)[1..] == Split(rest, NL);
      ReplaceLine(line, rest, check, r);
      ReplaceIsPerLine(rest, check, r);
    }
  }

  // ----------------------------------------------------------- what a rule changes

  /** Rule and line ending do not interfere: neither can end the other, and the line
      ending ends no line of the replacement. */
  predicate NoClash(rule: Rule, line: string) {
    && rule.allow != []
    && !EndsWith(rule.check, line) && !EndsWith(line, rule.check)
    && !EndsWith(line, rule.allow[0])
    && (forall i :: 0 <= i < |rule.allow| ==> !EndsWith(rule.allow[i], line))
  }

  predicate PlainRule(rule: Rule) {
    && rule.check != [] && NL !in rule.check && rule.allow != []
    && (forall i :: 0 <= i < |rule.allow| ==> NL !in rule.allow[i])
  }

  /** If two texts end the same text, one of them ends the other. */
  lemma SuffixesNest(a: string, x: string, y: string)
    requires EndsWith(a, x) && EndsWith(a, y)
    ensures EndsWith(x, y) || EndsWith(y, x)
  {
    if |y| <= |x| {
      assert x[|x| - |y|..] == a[|a| - |y|..];
    } else {
      assert y[|y| - |x|..] == a[|a| - |x|..];
    }
  }

  lemma EndsWithAppend(a: string, x: string)
    ensures EndsWith(a + x, x)
  {
    assert (a + x)[|a|..] == x;
  }

  lemma UnlinesBehind(before: string, allow: seq<string>, rest: string)
    requires allow != []
    ensures Unlines([before + allow[0]] + allow[1..]) + rest == before + Unlines(allow) + rest
  {
    var lines := [before + allow[0]] + allow[1..];
    assert lines[1..] == allow[1..];
    Regroup(before, allow[0], [NL], Unlines(allow[1..]));
  }

  /** The lines that a rule writes, when the first is put behind other text. */
  lemma RewrittenLines(before: string, allow: seq<string>, rest: string, line: string)
    requires NL !in before && NL !in line && allow != []
    requires forall i :: 0 <= i < |allow| ==> NL !in allow[i]
    ensures HasLine(before + Unlines(allow) + rest, line) <==>
            || EndsWith(before + allow[0], line)
            || (exists i :: 1 <= i < |allow| && EndsWith(allow[i], line))
            || HasLine(rest, line)
  {
    var lines := [before + allow[0]] + allow[1..];
    UnlinesBehind(before, allow, rest);
    LinesOf(lines, rest, line);
    SomeLineEnds(lines, allow, line);
  }

  lemma SomeLineEnds(lines: seq<string>, allow: seq<string>, line: string)
    requires |lines| == |allow| > 0 && forall i :: 1 <= i < |allow| ==> lines[i] == allow[i]
    ensures (exists i :: 0 <= i < |lines| && EndsWith(lines[i], line)) <==>
            || EndsWith(lines[0], line)
            || exists i :: 1 <= i < |allow| && EndsWith(allow[i], line)
  {
    if i :| 1 <= i < |allow| && EndsWith(allow[i], line) {
      assert EndsWith(lines[i], line);
    }
  }

  /** A rule neither adds nor removes a line ending that it does not clash with. */
  lemma {:induction false} RuleKeepsLine(text: string, rule: Rule, line: string)
    requires PlainRule(rule) && NL !in line && NoClash(rule, line)
    ensures HasLine(ApplyRule(text, rule), line) <==> HasLine(text, line)
    decreases |text|
  {
    var r := Unlines(rule.allow);
    if NL !in text {
      ReplaceNoLine(text, rule.check, r);
    } else {
      var a, rest := FirstLine(text);
      RuleKeepsLine(rest, rule, line);
      ReplaceLine(a, rest, rule.check, r);
      LineBeside(a, rest, line);
      LastLine(a, line);
      var out := ApplyRule(rest, rule);
      if EndsWith(a, rule.check) {
        var before := a[..|a| - |rule.check|];
        RewrittenLines(before, rule.allow, out, line);
        EndsWithAppend(before, rule.allow[0]);
        if EndsWith(before + rule.allow[0], line) {
          SuffixesNest(before + rule.allow[0], line, rule.allow[0]);
        }
        if EndsWith(a, line) {
          SuffixesNest(a, line, rule.check);
        }
      } else {
        assert RewriteLine(a, rule.check, r) + out == a + [NL] + out;
        LineBeside(a, out, line);
      }
    }
  }

  /** The rule's own check does not end what the rule writes. */
  predicate Removes(rule: Rule) {
    && rule.allow != []
    && !EndsWith(rule.check, rule.allow[0])
    && (forall i :: 0 <= i < |rule.allow| ==> !EndsWith(rule.allow[i], rule.check))
  }

  /** After the rule no line ends with its check. */
  lemma {:induction false} RuleRemovesCheck(text: string, rule: Rule)
    requires PlainRule(rule) && Removes(rule)
    ensures !HasLine(ApplyRule(text, rule), rule.check)
    decreases |text|
  {
    var r := Unlines(rule.allow);
    if NL !in text {
      ReplaceNoLine(text, rule.check, r);
      NoLineBreakNoLine(text, rule.check);
    } else {
      var a, rest := FirstLine(text);
      RuleRemovesCheck(rest, rule);
      ReplaceLine(a, rest, rule.check, r);
      var out := ApplyRule(rest, rule);
      if EndsWith(a, rule.check) {
        var before := a[..|a| - |rule.check|];
        RewrittenLines(before, rule.allow, out, rule.check);
        EndsWithAppend(before, rule.allow[0]);
        if EndsWith(before + rule.allow[0], rule.check) {
          SuffixesNest(before + rule.allow[0], rule.check, rule.allow[0]);
        }
      } else {
        assert RewriteLine(a, rule.check, r) + out == a + [NL] + out;
        LineBeside(a, out, rule.check);
        LastLine(a, rule.check);
      }
    }
  }

  /** Rule and word do not interfere: the word has no space, both sides of the rule start
      with one, and the word occurs in neither. */
  predicate NoWordClash(rule: Rule, word: string) {
    && word != [] && ' ' !in word && NL !in word
    && rule.check != [] && rule.check[0] == ' ' && !Contains(rule.check, word)
    && rule.allow != [] && rule.allow[0] != [] && rule.allow[0][0] == ' '
    && (forall i :: 0 <= i < |rule.allow| ==> !Contains(rule.allow[i], word))
  }

  /** Text that starts with a space adds no word to the text before it, unless it
      contains the word. */
  lemma WordBeforeSpace(before: string, x: string, word: string)
    requires word != [] && ' ' !in word && x != [] && x[0] == ' ' && !Contains(x, word)
    ensures Contains(before + x, word) <==> Contains(before, word)
  {
    assert x == [' '] + x[1..] + [];
    assert before + x == before + [' '] + x[1..];
    ContainsBeside(before, ' ', x[1..], word);
    if Contains(x[1..], word) {
      ContainsInside([' '], x[1..], [], word);
    }
  }

  /** A rewritten line holds a word when the text before the check or the text behind does. */
  lemma RewrittenWords(before: string, rule: Rule, rest: string, word: string)
    requires NoWordClash(rule, word)
    ensures Contains(before + Unlines(rule.allow) + rest, word) <==>
            Contains(before + rule.check, word) || Contains(rest, word)
  {
    var lines := [before + rule.allow[0]] + rule.allow[1..];
    UnlinesBehind(before, rule.allow, rest);
    WordsOf(lines, rest, word);
    WordBeforeSpace(before, rule.check, word);
    WordBeforeSpace(before, rule.allow[0], word);
    OnlyFirst(lines, rule.allow, word);
  }

  lemma OnlyFirst(lines: seq<string>, allow: seq<string>, word: string)
    requires |lines| == |allow| > 0 && forall i :: 1 <= i < |allow| ==> lines[i] == allow[i]
    requires forall i :: 0 <= i < |allow| ==> !Contains(allow[i], word)
    ensures (exists i :: 0 <= i < |lines| && Contains(lines[i], word)) <==> Contains(lines[0], word)
  {
  }

  /** A rule neither adds nor removes a word that it does not clash with. */
  lemma {:induction false} RuleKeepsWord(text: string, rule: Rule, word: string)
    requires PlainRule(rule) && NoWordClash(rule, word)
    ensures Contains(ApplyRule(text, rule), word) <==> Contains(text, word)
    decreases |text|
  {
    var r := Unlines(rule.allow);
    if NL !in text {
      ReplaceNoLine(text, rule.check, r);
    } else {
      var a, rest := FirstLine(text);
      RuleKeepsWord(rest, rule, word);
      ReplaceLine(a, rest, rule.check, r);
      ContainsBeside(a, NL, rest, word);
      var out := ApplyRule(rest, rule);
      if EndsWith(a, rule.check) {
        var before := a[..|a| - |rule.check|];
        assert a == before + rule.check;
        RewrittenWords(before, rule, out, word);
      } else {
        assert RewriteLine(a, rule.check, r) + out == a + [NL] + out;
        ContainsBeside(a, NL, out, word);
      }
    }
  }

  // -------------------------------------------------------- what inserting changes

  /** Inserting puts the helper between two parts of the text, at a line boundary. */
  lemma InsertSplits(text: string, anchorLine: string, helper: string) returns (front: string, back: string)
    ensures || (&& text == front + [NL] + back
                && InsertAfter(text, anchorLine, helper) == front + [NL] + (helper + back))
            || (front == [] && back == text
                && InsertAfter(text, anchorLine, helper) == helper + ([] + [NL] + back))
  {
    var anchor := anchorLine + [NL];
    match Find(text, anchor)
    case Some(p) =>
      var q := p + |anchor|;
      front, back := text[..q - 1], text[q..];
      assert text[p..q][|anchorLine|] == text[q - 1] == NL;
      assert text[..q] == front + [NL];
    case None =>
      front, back := [], text;
  }

  lemma InsertKeepsLine(text: string, anchorLine: string, helper: seq<string>, line: string)
    requires NL !in line && line != [] && forall i :: 0 <= i < |helper| ==> NL !in helper[i]
    ensures HasLine(InsertAfter(text, anchorLine, Unlines(helper)), line) <==>
            HasLine(text, line) || exists i :: 0 <= i < |helper| && EndsWith(helper[i], line)
  {
    var h := Unlines(helper);
    var front, back := InsertSplits(text, anchorLine, h);
    LineBeside(front, back, line);
    LineBeside(front, h + back, line);
    LinesOf(helper, back, line);
    LinesOf(helper, [] + [NL] + back, line);
    LastLine([], line);
  }

  lemma InsertKeepsWord(text: string, anchorLine: string, helper: seq<string>, word: string)
    requires word != [] && NL !in word
    ensures Contains(InsertAfter(text, anchorLine, Unlines(helper)), word) <==>
            Contains(text, word) || exists i :: 0 <= i < |helper| && Contains(helper[i], word)
  {
    var h := Unlines(helper);
    var front, back := InsertSplits(text, anchorLine, h);
    ContainsBeside(front, NL, back, word);
    ContainsBeside(front, NL, h + back, word);
    WordsOf(helper, back, word);
    WordsOf(helper, [] + [NL] + back, word);
  }

  /** Occurrences that end before a cut do not depend on what follows the cut. */
  lemma OccursBeforeCut(a: string, b: string, n: string, cut: nat, i: nat)
    requires cut <= |a| && cut <= |b| && a[..cut] == b[..cut] && i + |n| <= cut
    ensures OccursAt(a, n, i) <==> OccursAt(b, n, i)
  {
    var end := i + |n|;
    assert a[i..end] == a[..cut][i..end];
    assert b[i..end] == b[..cut][i..end];
  }

  /** A first occurrence stays first when the text changes only behind it. */
  lemma FindBeforeCut(a: string, b: string, n: string, p: nat)
    requires Find(a, n) == Some(p) && p + |n| <= |b| && a[..p + |n|] == b[..p + |n|]
    ensures Find(b, n) == Some(p)
  {
    var cut := p + |n|;
    FindIsFirst(a, n);
    OccursBeforeCut(a, b, n, cut, p);
    forall i | 0 <= i < p ensures !OccursAt(b, n, i) {
      OccursBeforeCut(a, b, n, cut, i);
      assert !OccursAt(a, n, i);
    }
    FindUnique(b, n, p);
  }

  lemma RemoveAtAnchor(text: string, anchorLine: string, h: string)
    requires Find(text, anchorLine + [NL]).Some?
    ensures RemoveAfter(InsertAfter(text, anchorLine, h), anchorLine, h) == text
  {
    var anchor := anchorLine + [NL];
    var p := Find(text, anchor).value;
    var q := p + |anchor|;
    var out := text[..q] + h + text[q..];
    InsertAt(text, anchorLine, anchor, h, p);
    CutOut(text, h, q);
    FindBeforeCut(text, out, anchor, p);
    RemoveAt(out, anchorLine, anchor, h, p);
  }

  lemma InsertAt(text: string, anchorLine: string, anchor: string, h: string, p: nat)
    requires anchor == anchorLine + [NL] && Find(text, anchor) == Some(p)
    ensures InsertAfter(text, anchorLine, h) == text[..p + |anchor|] + h + text[p + |anchor|..]
  {
  }

  lemma RemoveAt(out: string, anchorLine: string, anchor: string, h: string, p: nat)
    requires anchor == anchorLine + [NL] && Find(out, anchor) == Some(p) && p + |anchor| + |h| <= |out|
    ensures RemoveAfter(out, anchorLine, h) == out[..p + |anchor|] + out[p + |anchor| + |h|..]
  {
  }

  lemma CutOut(text: string, h: string, q: nat)
    requires q <= |text|
    ensures var out := text[..q] + h + text[q..];
            out[..q] == text[..q] && out[q + |h|..] == text[q..] && out[..q] + out[q + |h|..] == text
  {
  }

  /** Removing an inserted helper gives back the text, with or without the anchor. */
  lemma RemoveInserted(text: string, anchorLine: string, helper: seq<string>)
    requires NL !in anchorLine && anchorLine != []
    requires forall i :: 0 <= i < |helper| ==> NL !in helper[i] && !EndsWith(helper[i], anchorLine)
    ensures RemoveAfter(InsertAfter(text, anchorLine, Unlines(helper)), anchorLine, Unlines(helper)) == text
  {
    var h, anchor := Unlines(helper), anchorLine + [NL];
    FindIsFirst(text, anchor);
    if Find(text, anchor).Some? {
      RemoveAtAnchor(text, anchorLine, h);
    } else {
      var out := h + [NL] + text;
      InsertKeepsLine(text, anchorLine, helper, anchorLine);
      FindIsFirst(out, anchor);
      assert out[|h| + 1..] == text;
    }
  }
}
