/** For which slot values a rendered text determines them (signing-service/src/policy.rs,
    render_template): no other accepted values, nested slot texts included, give the same text. */
module RenderedValues {
  import opened Bytes
  import opened TextRewriting
  import opened Template

  // ------------------------------------------------------- what later slots cannot make

  lemma ReplacedContains(x: bytes, n: bytes, v: bytes)
    requires n != [] && Contains(x, n)
    ensures Contains(Replace(x, n, v), v)
  {
    FindIsFirst(x, n);
    var p := Find(x, n).value;
    ReplaceFirst(x, n, v);
    ContainsItself(v);
    ContainsInside(x[..p], v, Replace(x[p + |n|..], n, v), v);
  }

  lemma ContainsItself(v: bytes)
    ensures Contains(v, v)
  {
    assert OccursAt(v, v, 0);
  }

  /** A text that contains no slot's value is rendered from itself only. */
  lemma {:induction false} RenderedFromItself(x: bytes, slots: seq<Slot>, y: bytes)
    requires Render(x, slots) == y && forall k :: 0 <= k < |slots| ==> !Contains(y, slots[k].value)
    ensures x == y
    decreases slots
  {
    if slots == [] {
    } else {
      var n, v := Needle(slots[0].name), slots[0].value;
      assert forall k :: 0 <= k < |slots[1..]| ==> slots[1..][k] == slots[k + 1];
      RenderedFromItself(Replace(x, n, v), slots[1..], y);
      if Contains(x, n) {
        ReplacedContains(x, n, v);
      }
      ReplaceAbsent(x, n, v);
    }
  }

  // ----------------------------------------------------------- what later slots can make

  lemma {:induction false} SameNameEnds(p: bytes, y: bytes, q: bytes)
    requires PlainName(p) && PlainName(q) && q + CLOSE <= p + CLOSE + y
    ensures p == q
  {
    assert (q + CLOSE)[0] == if q == [] then 125 else q[0];
    assert (p + CLOSE + y)[0] == if p == [] then 125 else p[0];
    assert (p != [] ==> p[0] in p) && (q != [] ==> q[0] in q);
    if p == [] || q == [] {
    } else {
      assert (q + CLOSE)[1..] == q[1..] + CLOSE && (p + CLOSE + y)[1..] == p[1..] + CLOSE + y;
      assert (forall c :: c in p[1..] ==> c in p) && forall c :: c in q[1..] ==> c in q;
      SameNameEnds(p[1..], y, q[1..]);
      assert p == [p[0]] + p[1..] && q == [q[0]] + q[1..];
    }
  }

  /** In a text without other brace pairs, one slot's text is the only occurrence of any. */
  lemma OnlyNeedle(x: bytes, p: bytes, y: bytes, q: bytes, i: nat)
    requires PlainName(p) && PlainName(q) && !Contains(x, OPEN) && !Contains(y, OPEN)
    requires OccursAt(x + Needle(p) + y, Needle(q), i)
    ensures i == |x| && p == q
  {
    var s, n := x + Needle(p) + y, Needle(q);
    OpenAt(x, p, y, q, i);
    assert s[i..i + |n|] == n;
    assert s[i + 2..] == p + CLOSE + y;
    assert n[2..] == q + CLOSE;
    assert s[i..i + |n|][2..] == s[i + 2..][..|n| - 2];
    SameNameEnds(p, y, q);
  }

  lemma OpenAt(x: bytes, p: bytes, y: bytes, q: bytes, i: nat)
    requires PlainName(p) && PlainName(q) && !Contains(x, OPEN) && !Contains(y, OPEN)
    requires OccursAt(x + Needle(p) + y, Needle(q), i)
    ensures i == |x|
  {
    var s, n, end := x + Needle(p) + y, Needle(q), |x| + |Needle(p)|;
    OccursElement(s, n, i, 0);
    OccursElement(s, n, i, 1);
    OccursElement(s, n, i, 2);
    assert n[0] == 123 && n[1] == 123 && n[2] != 123 by {
      assert q != [] ==> n[2] == q[0] && q[0] in q;
    }
    if i + 1 < |x| {
      NoPair(x, i);
    } else if i < |x| {
      BeforeNeedle(x, p, y);
    } else if |x| < i < end {
      NoPairInNeedle(x, p, y, i);
    } else if end <= i {
      NoPairBehind(x, p, y, i);
    }
  }

  lemma NoPair(x: bytes, i: nat)
    requires i + 1 < |x| && !Contains(x, OPEN)
    ensures x[i] != 123 || x[i + 1] != 123
  {
    assert !OccursAt(x, OPEN, i);
    assert x[i..i + 2] == [x[i], x[i + 1]];
  }

  lemma NoPairBehind(x: bytes, p: bytes, y: bytes, i: nat)
    requires |x + Needle(p)| <= i < |x + Needle(p) + y| - 1 && !Contains(y, OPEN)
    ensures (x + Needle(p) + y)[i] != 123 || (x + Needle(p) + y)[i + 1] != 123
  {
    NoPair(y, i - |x + Needle(p)|);
  }

  lemma BeforeNeedle(x: bytes, p: bytes, y: bytes)
    requires x != []
    ensures (x + Needle(p) + y)[|x| + 1] == 123
  {
    assert Needle(p)[1] == 123;
  }

  lemma NoPairInNeedle(x: bytes, p: bytes, y: bytes, i: nat)
    requires PlainName(p) && |x| < i < |x| + |Needle(p)|
    ensures var s := x + Needle(p) + y; s[i] != 123 || (i == |x| + 1 && s[i + 1] != 123)
  {
    NeedleRest(p, i - |x|);
    assert (x + Needle(p) + y)[i] == Needle(p)[i - |x|];
    assert (x + Needle(p) + y)[|x| + 2] == Needle(p)[2];
  }

  lemma NeedleRest(p: bytes, j: nat)
    requires PlainName(p) && 0 < j < |Needle(p)|
    ensures Needle(p)[2] != 123 && (j > 1 ==> Needle(p)[j] != 123)
  {
    assert forall k :: 2 <= k < 2 + |p| ==> Needle(p)[k] == p[k - 2] && p[k - 2] in p;
  }

  /** A value that contains a later slot's value can be rendered from that slot's text. */
  lemma {:induction false} SlotInText(x: bytes, y: bytes, slots: seq<Slot>, m: nat)
    requires WellNamed(slots) && m < |slots| && !Contains(x + slots[m].value + y, OPEN)
    requires !Contains(x, OPEN) && !Contains(y, OPEN)
    ensures Render(x + Needle(slots[m].name) + y, slots) == x + slots[m].value + y
  {
    var text, first := x + Needle(slots[m].name) + y, slots[0];
    if m == 0 {
      NeedleReplaced(x, y, first.name, first.value);
      RenderPlain(x + first.value + y, slots[1..]);
    } else {
      OtherAbsent(x, slots[m].name, y, first.name);
      ReplaceAbsent(text, Needle(first.name), first.value);
      LaterWellNamed(slots);
      SlotInText(x, y, slots[1..], m - 1);
    }
  }

  lemma OtherAbsent(x: bytes, p: bytes, y: bytes, q: bytes)
    requires PlainName(p) && PlainName(q) && p != q && !Contains(x, OPEN) && !Contains(y, OPEN)
    ensures !Contains(x + Needle(p) + y, Needle(q))
  {
    var s := x + Needle(p) + y;
    if Contains(s, Needle(q)) {
      var i :| 0 <= i <= |s| && OccursAt(s, Needle(q), i);
      OnlyNeedle(x, p, y, q, i);
    }
  }

  lemma NeedleReplaced(x: bytes, y: bytes, p: bytes, v: bytes)
    requires PlainName(p) && !Contains(x, OPEN) && !Contains(y, OPEN)
    ensures Replace(x + Needle(p) + y, Needle(p), v) == x + v + y
  {
    var s, n := x + Needle(p) + y, Needle(p);
    assert s[|x|..|x| + |n|] == n;
    forall i | 0 <= i < |x| ensures !OccursAt(s, n, i) {
      if OccursAt(s, n, i) {
        OnlyNeedle(x, p, y, p, i);
      }
    }
    FindUnique(s, n, |x|);
    ReplaceFirst(s, n, v);
    assert s[..|x|] == x && s[|x| + |n|..] == y;
    if Contains(y, n) {
      ContainsOpen(y, p);
    }
    ReplaceAbsent(y, n, v);
  }

  // -------------------------------------------------------------------- the condition

  /** Other values, changed in some free slots only, that give the same text. */
  ghost predicate Rival(template: bytes, a: seq<Slot>, free: set<nat>, b: seq<Slot>) {
    && SameNames(a, b)
    && (forall k :: 0 <= k < |a| && k !in free ==> b[k] == a[k])
    && RenderTemplate(template, b) == RenderTemplate(template, a)
  }

  /** No value of a free slot contains the value of a later slot. */
  ghost predicate Separate(a: seq<Slot>, free: set<nat>) {
    forall k, m :: k in free && 0 <= k < m < |a| ==> !Contains(a[k].value, a[m].value)
  }

  ghost predicate Setting(template: bytes, a: seq<Slot>, free: set<nat>) {
    && WellNamed(a) && SlotsStandAlone(template, a) && RenderTemplate(template, a).Ok?
    && (forall k :: 0 <= k < |a| ==> Occurs(template, a[k]))
    && (forall k :: 0 <= k < |a| && k !in free ==> !Contains(a[k].value, OPEN))
  }

  lemma RivalResolved(template: bytes, a: seq<Slot>, free: set<nat>, b: seq<Slot>)
    requires Setting(template, a, free) && ValuesPlain(a) && Rival(template, a, free, b)
    ensures forall k :: 0 <= k < |a| ==> Resolved(b)[k] == a[k]
  {
    ResolvedNames(b);
    RenderInjective(template, a, b);
    forall k | 0 <= k < |a| ensures Resolved(b)[k] == a[k] {
      PlainResolved(a, k);
      assert Resolved(a)[k].value == Resolved(b)[k].value;
    }
  }

  lemma RivalSlotSame(a: seq<Slot>, free: set<nat>, b: seq<Slot>, k: nat)
    requires |a| == |b| && k < |a| && k in free && Separate(a, free)
    requires b[k + 1..] == a[k + 1..] && Resolved(b)[k] == a[k]
    ensures b[k] == a[k]
  {
    var later := a[k + 1..];
    ResolvedAt(b, k);
    forall j | 0 <= j < |later| ensures !Contains(a[k].value, later[j].value) {
      assert later[j] == a[k + 1 + j];
    }
    RenderedFromItself(b[k].value, later, a[k].value);
  }

  /** From the last slot downwards, a rival has the same values. */
  lemma {:induction false} RivalSame(a: seq<Slot>, free: set<nat>, b: seq<Slot>, k: nat)
    requires |a| == |b| && k <= |a| && Separate(a, free)
    requires forall j :: 0 <= j < |a| && j !in free ==> b[j] == a[j]
    requires forall j :: 0 <= j < |a| ==> Resolved(b)[j] == a[j]
    ensures b[k..] == a[k..]
    decreases |a| - k
  {
    if k == |a| {
    } else {
      RivalSame(a, free, b, k + 1);
      if k in free {
        RivalSlotSame(a, free, b, k);
      }
      assert b[k..] == [b[k]] + b[k + 1..] && a[k..] == [a[k]] + a[k + 1..];
    }
  }

  lemma DeterminedWhenSeparate(template: bytes, a: seq<Slot>, free: set<nat>, b: seq<Slot>)
    requires Setting(template, a, free) && ValuesPlain(a) && Separate(a, free) && Rival(template, a, free, b)
    ensures b == a
  {
    RivalResolved(template, a, free, b);
    RivalSame(a, free, b, 0);
    assert b[0..] == b && a[0..] == a;
  }

  lemma {:induction false} ReplaceKeepsSome(text: bytes, n: bytes, v: bytes)
    requires text != [] && n != [] && v != []
    ensures Replace(text, n, v) != []
  {
  }

  lemma {:induction false} RenderKeepsSome(text: bytes, slots: seq<Slot>)
    requires text != [] && AllAccepted(slots)
    ensures Render(text, slots) != []
    decreases slots
  {
    if slots == [] {
    } else {
      ReplaceKeepsSome(text, Needle(slots[0].name), slots[0].value);
      RenderKeepsSome(Replace(text, Needle(slots[0].name), slots[0].value), slots[1..]);
    }
  }

  lemma ResolvedAccepted(slots: seq<Slot>)
    requires WellNamed(slots) && AllAccepted(slots)
    ensures AllAccepted(Resolved(slots))
  {
    forall k | 0 <= k < |slots| ensures Accepted(Resolved(slots)[k].value) {
      var v := Resolved(slots)[k].value;
      ResolvedAt(slots, k);
      RenderKeepsSome(slots[k].value, slots[k + 1..]);
      RenderKeepsStructure(slots[k].value, slots[k + 1..]);
      NoStructure(slots[k].value);
      forall c: byte | IsForbidden(c) ensures c !in v {
        StructureSeen(v, c);
      }
    }
  }

  /** The resolved values are a rival, and another one when some value has a brace pair. */
  lemma ResolvedIsRival(template: bytes, a: seq<Slot>, free: set<nat>)
    requires Setting(template, a, free) && !ValuesPlain(a)
    ensures Rival(template, a, free, Resolved(a)) && Resolved(a) != a
  {
    var r := Resolved(a);
    RenderSucceeds(template, a);
    ResolvedNames(a);
    ResolvedAccepted(a);
    SameNamesStandAlone(template, a, r);
    SequentialIsSimultaneous(template, r);
    forall k | 0 <= k < |a| && k !in free ensures r[k] == a[k] {
      PlainResolved(a, k);
    }
    var k :| 0 <= k < |a| && Contains(a[k].value, OPEN);
    assert Occurs(template, r[k]);
    assert r[k] != a[k];
  }

  lemma PartsPlain(x: bytes, v: bytes, y: bytes)
    ensures Contains(x, OPEN) || Contains(y, OPEN) ==> Contains(x + v + y, OPEN)
  {
    if Contains(x, OPEN) {
      ContainsInside([], x, v + y, OPEN);
      assert [] + x + (v + y) == x + v + y;
    }
    if Contains(y, OPEN) {
      ContainsInside(x + v, y, [], OPEN);
      assert x + v + y + [] == x + v + y;
    }
  }

  /** A value that contains a later slot's value, with that slot's text in its place. */
  lemma NestedText(a: seq<Slot>, k: nat, m: nat) returns (nested: bytes)
    requires WellNamed(a) && AllAccepted(a) && ValuesPlain(a)
    requires k < m < |a| && Contains(a[k].value, a[m].value)
    ensures Accepted(nested) && Contains(nested, OPEN) && Render(nested, a[k + 1..]) == a[k].value
  {
    var value, v, name := a[k].value, a[m].value, a[m].name;
    var i :| 0 <= i <= |value| && OccursAt(value, v, i);
    var x, y := value[..i], value[i + |v|..];
    assert value == x + v + y;
    PartsPlain(x, v, y);
    nested := x + Needle(name) + y;
    NestedAccepted(x, name, y, value);
    var later := a[k + 1..];
    TailWellNamed(a, k + 1);
    assert later[m - k - 1] == a[m];
    SlotInText(x, y, later, m - k - 1);
  }

  lemma TailWellNamed(slots: seq<Slot>, k: nat)
    requires WellNamed(slots) && k <= |slots|
    ensures WellNamed(slots[k..])
  {
  }

  lemma NestedAccepted(x: bytes, name: bytes, y: bytes, value: bytes)
    requires PlainName(name) && Accepted(value) && forall c :: c in x || c in y ==> c in value
    ensures Accepted(x + Needle(name) + y) && Contains(x + Needle(name) + y, OPEN)
  {
    assert forall c :: c in Needle(name) ==> c == 123 || c == 125 || c in name;
    assert OccursAt(Needle(name), OPEN, 0);
    ContainsInside(x, Needle(name), y, OPEN);
  }

  lemma NestedIsRival(template: bytes, a: seq<Slot>, free: set<nat>, k: nat, nested: bytes)
    requires Setting(template, a, free) && ValuesPlain(a) && k in free && k < |a|
    requires Accepted(nested) && Contains(nested, OPEN) && Render(nested, a[k + 1..]) == a[k].value
    ensures var b := a[k := Slot(a[k].name, nested)]; Rival(template, a, free, b) && b != a
  {
    var b := a[k := Slot(a[k].name, nested)];
    assert b[k + 1..] == a[k + 1..];
    forall j | 0 <= j < |a| ensures Resolved(b)[j] == a[j] {
      if j == k {
        ResolvedAt(b, k);
      } else {
        PlainResolved(b, j);
      }
    }
    assert Resolved(b) == a;
    RenderSucceeds(template, a);
    SameNamesStandAlone(template, a, b);
    RenderSucceeds(template, b);
    PlainIsResolved(template, a);
  }

  /** A rendered text determines the values of the free slots, among all accepted values, exactly
      when no value contains an opening brace pair and no value of a free slot contains the value
      of a later slot. */
  lemma DeterminedExactly(template: bytes, a: seq<Slot>, free: set<nat>)
    requires Setting(template, a, free)
    ensures (forall b :: Rival(template, a, free, b) ==> b == a) <==> ValuesPlain(a) && Separate(a, free)
  {
    if ValuesPlain(a) && Separate(a, free) {
      forall b | Rival(template, a, free, b) ensures b == a {
        DeterminedWhenSeparate(template, a, free, b);
      }
    } else if !ValuesPlain(a) {
      ResolvedIsRival(template, a, free);
    } else {
      var k, m :| k in free && 0 <= k < m < |a| && Contains(a[k].value, a[m].value);
      RenderSucceeds(template, a);
      var nested := NestedText(a, k, m);
      NestedIsRival(template, a, free, k, nested);
    }
  }
}
