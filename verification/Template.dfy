/** Rendering of the policy template (signing-service/src/policy.rs, render_template): eight
    replacements in turn, compared with one simultaneous substitution. */
module Template {
  import opened Bytes
  import opened StableSort
  import opened TextRewriting
  import opened Descriptor
  import TextCodecs

  datatype Slot = Slot(name: bytes, value: bytes)

  datatype RenderError = EmptySlot(name: bytes) | ForbiddenCharacter(name: bytes) | UnrenderedSlot

  const QUOTE: byte := 34
  const OPEN: bytes := [123, 123]
  const CLOSE: bytes := [125, 125]

  /** The text that stands for a slot in the template. */
  function Needle(name: bytes): (n: bytes)
    ensures n != [] && OPEN <= n
  {
    OPEN + name + CLOSE
  }

  /** Quote, newline, carriage return and NUL may not occur in a slot value. */
  predicate IsForbidden(c: byte) {
    c == QUOTE || c == 10 || c == 13 || c == 0
  }

  predicate Accepted(value: bytes) {
    value != [] && forall c :: c in value ==> !IsForbidden(c)
  }

  function FirstError(slots: seq<Slot>): Option<RenderError> {
    if slots == [] then None
    else if slots[0].value == [] then Some(EmptySlot(slots[0].name))
    else if !Accepted(slots[0].value) then Some(ForbiddenCharacter(slots[0].name))
    else FirstError(slots[1..])
  }

  /** The replacements, one slot after the other. */
  function Render(text: bytes, slots: seq<Slot>): bytes
    decreases slots
  {
    if slots == [] then text
    else Render(Replace(text, Needle(slots[0].name), slots[0].value), slots[1..])
  }

  function RenderTemplate(template: bytes, slots: seq<Slot>): Result<bytes, RenderError> {
    if FirstError(slots).Some? then Err(FirstError(slots).value)
    else if Contains(Render(template, slots), OPEN) then Err(UnrenderedSlot)
    else Ok(Render(template, slots))
  }

  /** The loop as written. */
  method RenderLoop(template: bytes, slots: seq<Slot>) returns (r: Result<bytes, RenderError>)
    ensures r == RenderTemplate(template, slots)
  {
    var rendered := template;
    for i := 0 to |slots|
      invariant Render(rendered, slots[i..]) == Render(template, slots)
      invariant FirstError(slots[i..]) == FirstError(slots)
    {
      assert slots[i..][1..] == slots[i + 1..];
      if slots[i].value == [] {
        return Err(EmptySlot(slots[i].name));
      }
      if exists c :: c in slots[i].value && IsForbidden(c) {
        return Err(ForbiddenCharacter(slots[i].name));
      }
      rendered := Replace(rendered, Needle(slots[i].name), slots[i].value);
    }
    if Contains(rendered, OPEN) {
      return Err(UnrenderedSlot);
    }
    return Ok(rendered);
  }

  /** The eight slots of a descriptor, in the order of the source. */
  function SlotsOf(d: DeploymentDescriptor): seq<Slot> {
    [Slot(Ascii("init_data_hash"), TextCodecs.HexEncode(d.expectedCcInitDataHash)),
     Slot(Ascii("image_digest"), d.imageDigest),
     Slot(Ascii("signer_subject"), d.signerIdentity.subject),
     Slot(Ascii("signer_issuer"), d.signerIdentity.issuer),
     Slot(Ascii("namespace"), d.namespace),
     Slot(Ascii("service_account"), d.serviceAccount),
     Slot(Ascii("identity_hash"), TextCodecs.HexEncode(d.identityHash)),
     Slot(Ascii("kbs_resource_path"), d.kbsResourcePath)]
  }

  // ---------------------------------------------------------- slots and segments

  predicate PlainName(name: bytes) {
    forall c :: c in name ==> c != 123 && c != 125 && !IsForbidden(c)
  }

  /** Names are free of braces and forbidden characters, and distinct. */
  predicate WellNamed(slots: seq<Slot>) {
    && (forall i :: 0 <= i < |slots| ==> PlainName(slots[i].name))
    && (forall i, j :: 0 <= i < j < |slots| ==> slots[i].name != slots[j].name)
  }

  predicate AllAccepted(slots: seq<Slot>) {
    forall i :: 0 <= i < |slots| ==> Accepted(slots[i].value)
  }

  /** No value contains an opening brace pair. */
  predicate ValuesPlain(slots: seq<Slot>) {
    forall i :: 0 <= i < |slots| ==> !Contains(slots[i].value, OPEN)
  }

  predicate IsSlot(segment: bytes, slots: seq<Slot>) {
    exists i :: 0 <= i < |slots| && segment == Needle(slots[i].name)
  }

  /** Every slot of the template stands alone between two quotes: each piece between
      quotes is a slot or has no opening brace pair at all. */
  predicate SlotsStandAlone(template: bytes, slots: seq<Slot>) {
    forall i :: 0 <= i < |Split(template, QUOTE)| ==>
      IsSlot(Split(template, QUOTE)[i], slots) || !Contains(Split(template, QUOTE)[i], OPEN)
  }

  /** What one piece becomes under simultaneous substitution. */
  function Substitute(segment: bytes, slots: seq<Slot>): bytes {
    if slots == [] then segment
    else if segment == Needle(slots[0].name) then slots[0].value
    else Substitute(segment, slots[1..])
  }

  function SubstituteAll(segments: seq<bytes>, slots: seq<Slot>): seq<bytes> {
    seq(|segments|, i requires 0 <= i < |segments| => Substitute(segments[i], slots))
  }

  /** All slots are replaced at once. */
  function Simultaneous(template: bytes, slots: seq<Slot>): bytes {
    Join(SubstituteAll(Split(template, QUOTE), slots), QUOTE)
  }

  lemma NeedleHasNoQuote(name: bytes)
    requires PlainName(name)
    ensures QUOTE !in Needle(name)
  {
  }

  lemma NeedleInjective(a: bytes, b: bytes)
    ensures Needle(a) == Needle(b) <==> a == b
  {
    assert Needle(a)[2..|Needle(a)| - 2] == a && Needle(b)[2..|Needle(b)| - 2] == b;
  }

  lemma ContainsOpen(text: bytes, name: bytes)
    requires Contains(text, Needle(name))
    ensures Contains(text, OPEN)
  {
    var n := Needle(name);
    var i :| 0 <= i <= |text| && OccursAt(text, n, i);
    assert text[i..i + 2] == text[i..i + |n|][..2] == OPEN;
    assert OccursAt(text, OPEN, i);
  }

  /** A slot's text contains another slot's text only if the names are equal. */
  lemma NeedlesApart(a: bytes, b: bytes)
    requires PlainName(a) && PlainName(b) && Contains(Needle(a), Needle(b))
    ensures a == b
  {
    var s, n := Needle(a), Needle(b);
    var i :| 0 <= i <= |s| && OccursAt(s, n, i);
    assert s[i..i + |n|] == n;
    assert n[0] == s[i] && n[1] == s[i + 1];
    assert forall k :: 2 <= k < 2 + |a| ==> s[k] == a[k - 2] && s[k] in a;
    assert i == 0;
    var end := 2 + |b|;
    assert n[end] == s[end] == 125;
    assert n[end + 1] == s[end + 1] == 125;
    assert forall k :: 2 <= k < 2 + |b| ==> n[k] == b[k - 2] && n[k] in b && s[k] == n[k];
    assert s[2 + |a|] == 125;
    assert |a| == |b|;
    forall k | 0 <= k < |a| ensures a[k] == b[k] {
      assert s[k + 2] == n[k + 2];
    }
  }

  // ------------------------------------------------------ one piece at a time

  /** Rendering acts on each piece between quotes on its own. */
  lemma {:induction false} RenderPieces(segments: seq<bytes>, slots: seq<Slot>)
    requires WellNamed(slots)
    ensures Render(Join(segments, QUOTE), slots)
            == Join(seq(|segments|, i requires 0 <= i < |segments| => Render(segments[i], slots)), QUOTE)
    decreases slots
  {
    var rendered := seq(|segments|, i requires 0 <= i < |segments| => Render(segments[i], slots));
    if slots == [] {
      assert rendered == segments;
    } else {
      var n, v := Needle(slots[0].name), slots[0].value;
      NeedleHasNoQuote(slots[0].name);
      var next := seq(|segments|, i requires 0 <= i < |segments| => Replace(segments[i], n, v));
      ReplaceJoin(segments, QUOTE, n, v);
      RenderPieces(next, slots[1..]);
      assert rendered == seq(|next|, i requires 0 <= i < |next| => Render(next[i], slots[1..]));
    }
  }

  lemma {:induction false} RenderPlain(text: bytes, slots: seq<Slot>)
    requires !Contains(text, OPEN)
    ensures Render(text, slots) == text
  {
    if slots == [] {
    } else {
      if Contains(text, Needle(slots[0].name)) {
        ContainsOpen(text, slots[0].name);
      }
      ReplaceAbsent(text, Needle(slots[0].name), slots[0].value);
      RenderPlain(text, slots[1..]);
    }
  }

  /** A slot's text first becomes its value; then only the later slots act on it. */
  lemma {:induction false} RenderSlot(slots: seq<Slot>, i: nat)
    requires WellNamed(slots) && i < |slots|
    ensures Render(Needle(slots[i].name), slots) == Render(slots[i].value, slots[i + 1..])
  {
    var n := Needle(slots[0].name);
    if i == 0 {
      assert n[|n|..] == [];
      assert Replace(n, n, slots[0].value) == slots[0].value;
    } else {
      if Contains(Needle(slots[i].name), n) {
        NeedlesApart(slots[i].name, slots[0].name);
      }
      ReplaceAbsent(Needle(slots[i].name), n, slots[0].value);
      RenderSlot(slots[1..], i - 1);
      assert slots[1..][i..] == slots[i + 1..];
    }
  }

  lemma {:induction false} SubstituteSlot(slots: seq<Slot>, i: nat)
    requires WellNamed(slots) && i < |slots|
    ensures Substitute(Needle(slots[i].name), slots) == slots[i].value
  {
    if i == 0 {
    } else {
      NeedleInjective(slots[i].name, slots[0].name);
      SubstituteSlot(slots[1..], i - 1);
    }
  }

  lemma {:induction false} SubstitutePlain(segment: bytes, slots: seq<Slot>)
    requires !IsSlot(segment, slots)
    ensures Substitute(segment, slots) == segment
  {
    if slots == [] {
    } else {
      assert segment != Needle(slots[0].name);
      assert forall j :: 0 <= j < |slots[1..]| ==> slots[1..][j] == slots[j + 1];
      SubstitutePlain(segment, slots[1..]);
    }
  }

  // ---------------------------------------------- values as the later slots leave them

  /** The slots with the values that finally appear: every value as rewritten by the slots that
      come after it. */
  function Resolved(slots: seq<Slot>): (r: seq<Slot>)
    ensures |r| == |slots|
  {
    if slots == [] then []
    else [Slot(slots[0].name, Render(slots[0].value, slots[1..]))] + Resolved(slots[1..])
  }

  lemma {:induction false} ResolvedAt(slots: seq<Slot>, k: nat)
    requires k < |slots|
    ensures Resolved(slots)[k] == Slot(slots[k].name, Render(slots[k].value, slots[k + 1..]))
  {
    if k == 0 {
    } else {
      ResolvedAt(slots[1..], k - 1);
      assert slots[1..][k..] == slots[k + 1..];
    }
  }

  lemma ResolvedNames(slots: seq<Slot>)
    ensures SameNames(Resolved(slots), slots)
  {
    forall k | 0 <= k < |slots| ensures Resolved(slots)[k].name == slots[k].name {
      ResolvedAt(slots, k);
    }
  }

  /** A value without an opening brace pair is not rewritten. */
  lemma PlainResolved(slots: seq<Slot>, k: nat)
    requires k < |slots| && !Contains(slots[k].value, OPEN)
    ensures Resolved(slots)[k] == slots[k]
  {
    ResolvedAt(slots, k);
    RenderPlain(slots[k].value, slots[k + 1..]);
  }

  /** A value that is the text of a later slot becomes that slot's value. */
  lemma {:induction false} NamedResolved(slots: seq<Slot>, k: nat, m: nat)
    requires WellNamed(slots) && k < m < |slots|
    requires slots[k].value == Needle(slots[m].name) && !Contains(slots[m].value, OPEN)
    ensures Resolved(slots)[k] == Slot(slots[k].name, slots[m].value)
  {
    LaterWellNamed(slots);
    if k == 0 {
      NeedleRendered(slots[1..], m - 1);
    } else {
      NamedResolved(slots[1..], k - 1, m - 1);
    }
  }

  lemma LaterWellNamed(slots: seq<Slot>)
    requires WellNamed(slots) && slots != []
    ensures WellNamed(slots[1..])
  {
  }

  lemma NeedleRendered(slots: seq<Slot>, m: nat)
    requires WellNamed(slots) && m < |slots| && !Contains(slots[m].value, OPEN)
    ensures Render(Needle(slots[m].name), slots) == slots[m].value
  {
    RenderSlot(slots, m);
    RenderPlain(slots[m].value, slots[m + 1..]);
  }

  predicate SameNames(a: seq<Slot>, b: seq<Slot>) {
    |a| == |b| && forall i :: 0 <= i < |a| ==> a[i].name == b[i].name
  }

  lemma SameNamesStandAlone(template: bytes, a: seq<Slot>, b: seq<Slot>)
    requires WellNamed(a) && SameNames(a, b) && SlotsStandAlone(template, a)
    ensures WellNamed(b) && SlotsStandAlone(template, b)
  {
    var segments := Split(template, QUOTE);
    forall j | 0 <= j < |segments| && IsSlot(segments[j], a) ensures IsSlot(segments[j], b) {
      var m :| 0 <= m < |a| && segments[j] == Needle(a[m].name);
      assert segments[j] == Needle(b[m].name);
    }
  }

  // ---------------------------------------------------------------- main results

  /** The loop on every template with stand-alone slots and on all values, values that contain
      later slot names included: it is simultaneous substitution of the resolved values. */
  lemma RenderExactly(template: bytes, slots: seq<Slot>)
    requires WellNamed(slots) && SlotsStandAlone(template, slots)
    ensures Render(template, slots) == Simultaneous(template, Resolved(slots))
  {
    var segments := Split(template, QUOTE);
    JoinSplit(template, QUOTE);
    RenderPieces(segments, slots);
    var rendered := seq(|segments|, i requires 0 <= i < |segments| => Render(segments[i], slots));
    ResolvedNames(slots);
    SameNamesStandAlone(template, slots, Resolved(slots));
    forall i | 0 <= i < |segments| ensures rendered[i] == Substitute(segments[i], Resolved(slots)) {
      if k :| 0 <= k < |slots| && segments[i] == Needle(slots[k].name) {
        RenderSlot(slots, k);
        ResolvedAt(slots, k);
        SubstituteSlot(Resolved(slots), k);
      } else {
        RenderPlain(segments[i], slots);
        SubstitutePlain(segments[i], Resolved(slots));
      }
    }
    assert rendered == SubstituteAll(segments, Resolved(slots));
  }

  predicate Occurs(template: bytes, slot: Slot) {
    Needle(slot.name) in Split(template, QUOTE)
  }

  /** No value that the template uses contains an opening brace pair. */
  predicate OccurringPlain(template: bytes, slots: seq<Slot>) {
    forall k :: 0 <= k < |slots| && Occurs(template, slots[k]) ==> !Contains(slots[k].value, OPEN)
  }

  lemma OpenRemains(template: bytes, slots: seq<Slot>)
    requires WellNamed(slots) && SlotsStandAlone(template, slots)
    ensures Contains(Simultaneous(template, slots), OPEN) <==> !OccurringPlain(template, slots)
  {
    var segments := Split(template, QUOTE);
    var pieces := SubstituteAll(segments, slots);
    ContainsJoin(pieces, QUOTE, OPEN);
    forall k, i | 0 <= k < |slots| && 0 <= i < |segments| && segments[i] == Needle(slots[k].name)
      ensures pieces[i] == slots[k].value && Occurs(template, slots[k])
    {
      SubstituteSlot(slots, k);
    }
    forall i | 0 <= i < |segments| && !IsSlot(segments[i], slots) ensures !Contains(pieces[i], OPEN) {
      SubstitutePlain(segments[i], slots);
    }
    if k :| 0 <= k < |slots| && Occurs(template, slots[k]) && Contains(slots[k].value, OPEN) {
      var i :| 0 <= i < |segments| && segments[i] == Needle(slots[k].name);
      assert Contains(pieces[i], OPEN);
    }
    if i :| 0 <= i < |pieces| && Contains(pieces[i], OPEN) {
      var k :| 0 <= k < |slots| && segments[i] == Needle(slots[k].name);
      assert Occurs(template, slots[k]);
    }
  }

  /** Rendering succeeds exactly when every value is accepted and no brace pair is left in a
      value that the template uses. */
  lemma RenderSucceeds(template: bytes, slots: seq<Slot>)
    requires WellNamed(slots) && SlotsStandAlone(template, slots)
    ensures RenderTemplate(template, slots).Ok? <==>
            AllAccepted(slots) && OccurringPlain(template, Resolved(slots))
    ensures RenderTemplate(template, slots).Ok? ==>
              RenderTemplate(template, slots).value == Simultaneous(template, Resolved(slots))
  {
    NoErrors(slots);
    RenderExactly(template, slots);
    ResolvedNames(slots);
    SameNamesStandAlone(template, slots, Resolved(slots));
    OpenRemains(template, Resolved(slots));
  }

  /** Only the values of the slots that occur matter. */
  lemma SubstituteSame(template: bytes, a: seq<Slot>, b: seq<Slot>)
    requires WellNamed(a) && SameNames(a, b)
    requires forall k :: 0 <= k < |a| && Occurs(template, a[k]) ==> a[k].value == b[k].value
    ensures Simultaneous(template, a) == Simultaneous(template, b)
  {
    var segments := Split(template, QUOTE);
    forall i | 0 <= i < |segments| ensures Substitute(segments[i], a) == Substitute(segments[i], b) {
      if k :| 0 <= k < |a| && segments[i] == Needle(a[k].name) {
        assert Occurs(template, a[k]);
        SubstituteSlot(a, k);
        SubstituteSlot(b, k);
      } else {
        SubstitutePlain(segments[i], a);
        SubstitutePlain(segments[i], b);
      }
    }
    assert SubstituteAll(segments, a) == SubstituteAll(segments, b);
  }

  lemma PlainIsResolved(template: bytes, slots: seq<Slot>)
    requires WellNamed(slots) && OccurringPlain(template, slots)
    ensures OccurringPlain(template, Resolved(slots))
    ensures Simultaneous(template, Resolved(slots)) == Simultaneous(template, slots)
  {
    ResolvedNames(slots);
    forall k | 0 <= k < |slots| && Occurs(template, slots[k]) ensures Resolved(slots)[k] == slots[k] {
      PlainResolved(slots, k);
    }
    SubstituteSame(template, slots, Resolved(slots));
  }

  /** Sequential rendering is one simultaneous substitution exactly when every value is accepted
      and no value that the template uses contains an opening brace pair. */
  lemma SequentialIsSimultaneous(template: bytes, slots: seq<Slot>)
    requires WellNamed(slots) && SlotsStandAlone(template, slots)
    ensures RenderTemplate(template, slots) == Ok(Simultaneous(template, slots)) <==>
            AllAccepted(slots) && OccurringPlain(template, slots)
  {
    RenderSucceeds(template, slots);
    OpenRemains(template, slots);
    if OccurringPlain(template, slots) {
      PlainIsResolved(template, slots);
    }
  }

  // ------------------------------------------------------------- order of the slots

  lemma SubstituteReordered(segment: bytes, a: seq<Slot>, b: seq<Slot>)
    requires WellNamed(a) && WellNamed(b) && multiset(a) == multiset(b)
    ensures Substitute(segment, a) == Substitute(segment, b)
  {
    SameEntries(a, b);
    if i :| 0 <= i < |a| && segment == Needle(a[i].name) {
      assert a[i] in b;
      var j :| 0 <= j < |b| && b[j] == a[i];
      SubstituteSlot(a, i);
      SubstituteSlot(b, j);
    } else {
      if j :| 0 <= j < |b| && segment == Needle(b[j].name) {
        assert b[j] in a;
      }
      SubstitutePlain(segment, a);
      SubstitutePlain(segment, b);
    }
  }

  lemma Repeated(slots: seq<Slot>, i: nat, j: nat)
    requires i < j < |slots| && slots[i] == slots[j]
    ensures multiset(slots)[slots[i]] >= 2
  {
    assert slots == slots[..i] + [slots[i]] + slots[i + 1..j] + [slots[j]] + slots[j + 1..];
  }

  lemma Single(slots: seq<Slot>, i: nat)
    requires WellNamed(slots) && i < |slots|
    ensures multiset(slots)[slots[i]] == 1
  {
    var x, front, back := slots[i], slots[..i], slots[i + 1..];
    assert slots == front + [x] + back;
    assert x !in front && x !in back;
    assert multiset(slots) == multiset(front) + multiset([x]) + multiset(back);
  }

  lemma ReorderedWellNamed(a: seq<Slot>, b: seq<Slot>)
    requires WellNamed(a) && multiset(a) == multiset(b)
    ensures WellNamed(b)
  {
    SameEntries(a, b);
    forall i | 0 <= i < |b| ensures PlainName(b[i].name) {
      assert b[i] in a;
    }
    forall i, j | 0 <= i < j < |b| ensures b[i].name != b[j].name {
      assert b[i] in a && b[j] in a;
      var p, q :| 0 <= p < |a| && a[p] == b[i] && 0 <= q < |a| && a[q] == b[j];
      Single(a, p);
      if b[i] == b[j] {
        Repeated(b, i, j);
      }
    }
  }

  lemma ReorderedSame(template: bytes, a: seq<Slot>, b: seq<Slot>)
    requires WellNamed(a) && SlotsStandAlone(template, a) && multiset(a) == multiset(b)
    ensures WellNamed(b) && SlotsStandAlone(template, b)
    ensures AllAccepted(a) <==> AllAccepted(b)
    ensures OccurringPlain(template, a) <==> OccurringPlain(template, b)
    ensures Simultaneous(template, a) == Simultaneous(template, b)
  {
    ReorderedWellNamed(a, b);
    SameEntries(a, b);
    EntriesDecide(template, a, b);
    EntriesDecide(template, b, a);
    var segments := Split(template, QUOTE);
    forall i | 0 <= i < |segments| ensures Substitute(segments[i], a) == Substitute(segments[i], b) {
      SubstituteReordered(segments[i], a, b);
    }
    assert SubstituteAll(segments, a) == SubstituteAll(segments, b);
  }

  lemma EntriesDecide(template: bytes, a: seq<Slot>, b: seq<Slot>)
    requires forall x :: x in b ==> x in a
    ensures AllAccepted(a) ==> AllAccepted(b)
    ensures OccurringPlain(template, a) ==> OccurringPlain(template, b)
    ensures (forall x :: x in a ==> x in b) && SlotsStandAlone(template, a) ==> SlotsStandAlone(template, b)
  {
    forall j | 0 <= j < |b| ensures b[j] in a {
    }
    var segments := Split(template, QUOTE);
    if forall x :: x in a ==> x in b {
      forall i | 0 <= i < |segments| && IsSlot(segments[i], a) ensures IsSlot(segments[i], b) {
        var k :| 0 <= k < |a| && segments[i] == Needle(a[k].name);
        assert a[k] in b;
      }
    }
  }

  /** With a used value that contains a brace pair, the order in which its slot comes last fails:
      nothing rewrites the value any more. */
  lemma LastIsNotRewritten(template: bytes, a: seq<Slot>, k: nat) returns (b: seq<Slot>)
    requires WellNamed(a) && SlotsStandAlone(template, a)
    requires k < |a| && Occurs(template, a[k]) && Contains(a[k].value, OPEN)
    ensures multiset(b) == multiset(a) && RenderTemplate(template, b).Err?
  {
    b := a[..k] + a[k + 1..] + [a[k]];
    assert a == a[..k] + [a[k]] + a[k + 1..];
    ReorderedSame(template, a, b);
    var last := |b| - 1;
    ResolvedAt(b, last);
    assert Resolved(b)[last] == a[k];
    RenderSucceeds(template, b);
  }

  /** A rendering that succeeds gives the same text in every order of the slots exactly when no
      value that the template uses contains an opening brace pair. */
  lemma OrderIrrelevant(template: bytes, a: seq<Slot>)
    requires WellNamed(a) && SlotsStandAlone(template, a) && RenderTemplate(template, a).Ok?
    ensures (forall b :: multiset(b) == multiset(a) ==> RenderTemplate(template, b) == RenderTemplate(template, a))
            <==> OccurringPlain(template, a)
  {
    if OccurringPlain(template, a) {
      RenderSucceeds(template, a);
      forall b | multiset(b) == multiset(a) ensures RenderTemplate(template, b) == RenderTemplate(template, a) {
        ReorderedSame(template, a, b);
        SequentialIsSimultaneous(template, a);
        SequentialIsSimultaneous(template, b);
      }
    } else {
      var k :| 0 <= k < |a| && Occurs(template, a[k]) && Contains(a[k].value, OPEN);
      var b := LastIsNotRewritten(template, a, k);
    }
  }

  // ------------------------------------------------------------- reading values back

  lemma ResolvedHasNoQuote(slots: seq<Slot>, k: nat)
    requires WellNamed(slots) && AllAccepted(slots) && k < |slots|
    ensures QUOTE !in Resolved(slots)[k].value
  {
    ResolvedAt(slots, k);
    RenderKeepsStructure(slots[k].value, slots[k + 1..]);
    NoStructure(slots[k].value);
    StructureSeen(Render(slots[k].value, slots[k + 1..]), QUOTE);
  }

  /** Splitting a rendered text at quotes gives, at a slot's own position, its resolved value;
      that is the value itself exactly when the value contains no opening brace pair. */
  lemma ValuesRecovered(template: bytes, slots: seq<Slot>, i: nat, k: nat)
    requires WellNamed(slots) && SlotsStandAlone(template, slots) && RenderTemplate(template, slots).Ok?
    requires i < |Split(template, QUOTE)| && k < |slots|
    requires Split(template, QUOTE)[i] == Needle(slots[k].name)
    ensures var parts := Split(RenderTemplate(template, slots).value, QUOTE);
            && |parts| == |Split(template, QUOTE)| && parts[i] == Resolved(slots)[k].value
            && (parts[i] == slots[k].value <==> !Contains(slots[k].value, OPEN))
  {
    var segments, resolved := Split(template, QUOTE), Resolved(slots);
    RenderSucceeds(template, slots);
    ResolvedNames(slots);
    SameNamesStandAlone(template, slots, resolved);
    JoinSplit(template, QUOTE);
    var pieces := SubstituteAll(segments, resolved);
    forall j | 0 <= j < |segments| ensures QUOTE !in pieces[j] {
      if m :| 0 <= m < |resolved| && segments[j] == Needle(resolved[m].name) {
        SubstituteSlot(resolved, m);
        ResolvedHasNoQuote(slots, m);
      } else {
        SubstitutePlain(segments[j], resolved);
      }
    }
    SplitJoin(pieces, QUOTE);
    SubstituteSlot(resolved, k);
    assert Occurs(template, resolved[k]);
    if !Contains(slots[k].value, OPEN) {
      PlainResolved(slots, k);
    }
  }

  /** Two renderings that succeed give the same text exactly when the resolved values agree in
      every slot that the template uses. For values without a brace pair those are the values
      themselves (`PlainResolved`): then rendering is injective. */
  lemma RenderInjective(template: bytes, a: seq<Slot>, b: seq<Slot>)
    requires WellNamed(a) && SameNames(a, b) && SlotsStandAlone(template, a)
    requires RenderTemplate(template, a).Ok? && RenderTemplate(template, b).Ok?
    ensures RenderTemplate(template, a) == RenderTemplate(template, b) <==>
            forall k :: 0 <= k < |a| && Occurs(template, a[k]) ==>
              Resolved(a)[k].value == Resolved(b)[k].value
  {
    SameNamesStandAlone(template, a, b);
    ResolvedNames(a);
    ResolvedNames(b);
    SameNamesStandAlone(template, a, Resolved(a));
    RenderSucceeds(template, a);
    RenderSucceeds(template, b);
    if RenderTemplate(template, a) == RenderTemplate(template, b) {
      forall k | 0 <= k < |a| && Occurs(template, a[k])
        ensures Resolved(a)[k].value == Resolved(b)[k].value
      {
        var i :| 0 <= i < |Split(template, QUOTE)| && Split(template, QUOTE)[i] == Needle(a[k].name);
        ValuesRecovered(template, a, i, k);
        ValuesRecovered(template, b, i, k);
      }
    }
    if forall k :: 0 <= k < |a| && Occurs(template, a[k]) ==> Resolved(a)[k].value == Resolved(b)[k].value {
      SubstituteSame(template, Resolved(a), Resolved(b));
    }
  }

  lemma {:induction false} NoErrors(slots: seq<Slot>)
    ensures FirstError(slots).None? <==> AllAccepted(slots)
  {
    if slots == [] {
    } else {
      NoErrors(slots[1..]);
      if AllAccepted(slots[1..]) && Accepted(slots[0].value) {
        forall i | 0 <= i < |slots| ensures Accepted(slots[i].value) {
          if i > 0 { assert slots[i] == slots[1..][i - 1]; }
        }
      }
      if AllAccepted(slots) {
        forall i | 0 <= i < |slots[1..]| ensures Accepted(slots[1..][i].value) {
          assert slots[1..][i] == slots[i + 1];
        }
      }
    }
  }

  // ------------------------------------------------- line and quote structure

  /** The forbidden characters of a text, in order. */
  function Structure(text: bytes): bytes {
    if text == [] then []
    else if IsForbidden(text[0]) then [text[0]] + Structure(text[1..])
    else Structure(text[1..])
  }

  lemma {:induction false} StructureConcat(a: bytes, b: bytes)
    ensures Structure(a + b) == Structure(a) + Structure(b)
  {
    if a == [] {
      assert a + b == b;
    } else {
      assert (a + b)[1..] == a[1..] + b;
      StructureConcat(a[1..], b);
    }
  }

  lemma {:induction false} NoStructure(a: bytes)
    requires forall c :: c in a ==> !IsForbidden(c)
    ensures Structure(a) == []
  {
    if a == [] {
    } else {
      NoStructure(a[1..]);
    }
  }

  lemma {:induction false} StructureSeen(a: bytes, c: byte)
    requires IsForbidden(c) && Structure(a) == []
    ensures c !in a
  {
    if a == [] {
    } else {
      StructureSeen(a[1..], c);
    }
  }

  lemma {:induction false} ReplaceKeepsStructure(text: bytes, n: bytes, r: bytes)
    requires n != []
    requires forall c :: c in n || c in r ==> !IsForbidden(c)
    ensures Structure(Replace(text, n, r)) == Structure(text)
  {
    if text == [] {
    } else if n <= text {
      ReplaceKeepsStructure(text[|n|..], n, r);
      StructureConcat(r, Replace(text[|n|..], n, r));
      StructureConcat(n, text[|n|..]);
      NoStructure(n);
      NoStructure(r);
      assert text == n + text[|n|..];
    } else {
      ReplaceKeepsStructure(text[1..], n, r);
      var out := Replace(text, n, r);
      assert out[1..] == Replace(text[1..], n, r);
    }
  }

  lemma {:induction false} RenderKeepsStructure(text: bytes, slots: seq<Slot>)
    requires AllAccepted(slots) && forall i :: 0 <= i < |slots| ==> PlainName(slots[i].name)
    ensures Structure(Render(text, slots)) == Structure(text)
    decreases slots
  {
    if slots == [] {
    } else {
      ReplaceKeepsStructure(text, Needle(slots[0].name), slots[0].value);
      RenderKeepsStructure(Replace(text, Needle(slots[0].name), slots[0].value), slots[1..]);
    }
  }

  /** For every template and every accepted set of values, even values that contain a
      later slot name: a rendered policy has exactly the template's quotes, line ends and
      NULs in the template's order, and no opening brace pair is left. */
  lemma RenderedStructure(template: bytes, slots: seq<Slot>)
    requires forall i :: 0 <= i < |slots| ==> PlainName(slots[i].name)
    requires RenderTemplate(template, slots).Ok?
    ensures Structure(RenderTemplate(template, slots).value) == Structure(template)
    ensures !Contains(RenderTemplate(template, slots).value, OPEN)
  {
    NoErrors(slots);
    RenderKeepsStructure(template, slots);
  }

  /** Lower-case letters and underscores. */
  predicate LowerName(s: string) {
    forall c :: c in s ==> 'a' <= c <= 'z' || c == '_'
  }

  lemma LowerIsPlain(s: string)
    requires LowerName(s)
    ensures PlainName(Ascii(s))
  {
    forall c | c in Ascii(s) ensures 95 <= c <= 122 {
      var i :| 0 <= i < |Ascii(s)| && Ascii(s)[i] == c;
      assert s[i] in s;
    }
  }

  lemma NamesAreLower()
    ensures LowerName("init_data_hash") && LowerName("image_digest")
    ensures LowerName("signer_subject") && LowerName("signer_issuer")
    ensures LowerName("namespace") && LowerName("service_account")
    ensures LowerName("identity_hash") && LowerName("kbs_resource_path")
  {
  }

  lemma NamesDiffer(d: DeploymentDescriptor)
    ensures forall i, j :: 0 <= i < j < 8 ==> SlotsOf(d)[i].name != SlotsOf(d)[j].name
  {
    var s := SlotsOf(d);
    assert |s[0].name| == 14 && |s[1].name| == 12 && |s[2].name| == 14 && |s[3].name| == 13;
    assert |s[4].name| == 9 && |s[5].name| == 15 && |s[6].name| == 13 && |s[7].name| == 17;
    assert s[0].name[0] == 105 && s[2].name[0] == 115;
    assert s[3].name[0] == 115 && s[6].name[0] == 105;
  }

  /** The eight slot names of the service are plain and pairwise different. */
  lemma SlotNames(d: DeploymentDescriptor)
    ensures WellNamed(SlotsOf(d))
  {
    NamesAreLower();
    LowerIsPlain("init_data_hash");
    LowerIsPlain("image_digest");
    LowerIsPlain("signer_subject");
    LowerIsPlain("signer_issuer");
    LowerIsPlain("namespace");
    LowerIsPlain("service_account");
    LowerIsPlain("identity_hash");
    LowerIsPlain("kbs_resource_path");
    NamesDiffer(d);
  }

  // ------------------------------------------------------------------ in literal bytes

  /** The quotes (34), line feeds (10), carriage returns (13) and NULs (0) of a text, in order. */
  function Marks(text: bytes): bytes {
    if text == [] then []
    else (if text[0] in {34, 10, 13, 0} then [text[0]] else []) + Marks(text[1..])
  }

  lemma {:induction false} MarksAreStructure(text: bytes)
    ensures Marks(text) == Structure(text)
  {
    if text == [] {
    } else {
      MarksAreStructure(text[1..]);
    }
  }

  /** A value may stand in a slot: it has bytes, and none of the four. */
  ghost predicate SlotText(value: bytes) {
    value != [] && 34 !in value && 10 !in value && 13 !in value && 0 !in value
  }

  /** The values before the first unfit one are fit, and the error names it and says whether it is
      empty or holds one of the four bytes; with fit values only an unrendered slot is an error. */
  lemma {:induction false} FirstErrorExactly(slots: seq<Slot>)
    ensures FirstError(slots).None? <==> forall k :: 0 <= k < |slots| ==> SlotText(slots[k].value)
    ensures FirstError(slots).Some? ==>
              exists k :: && 0 <= k < |slots| && !SlotText(slots[k].value)
                          && (forall j :: 0 <= j < k ==> SlotText(slots[j].value))
                          && FirstError(slots).value == if slots[k].value == [] then EmptySlot(slots[k].name)
                                                        else ForbiddenCharacter(slots[k].name)
  {
    if slots == [] {
    } else {
      var rest := slots[1..];
      FirstErrorExactly(rest);
      assert forall k :: 0 < k < |slots| ==> slots[k] == rest[k - 1];
      if SlotText(slots[0].value) && FirstError(rest).Some? {
        var k :| && 0 <= k < |rest| && !SlotText(rest[k].value)
                 && (forall j :: 0 <= j < k ==> SlotText(rest[j].value))
                 && FirstError(rest).value == if rest[k].value == [] then EmptySlot(rest[k].name)
                                              else ForbiddenCharacter(rest[k].name);
        assert slots[k + 1] == rest[k];
      }
    }
  }

  /** Every value of a rendered text has bytes and none of 34, 10, 13 and 0; a value with one of them
      is an error; and the rendered text has exactly the template's own ones, in order. */
  lemma RenderedMarks(template: bytes, slots: seq<Slot>)
    requires forall i :: 0 <= i < |slots| ==> PlainName(slots[i].name)
    ensures (exists k :: 0 <= k < |slots| && !SlotText(slots[k].value)) ==> RenderTemplate(template, slots).Err?
    ensures RenderTemplate(template, slots).Ok? ==>
              && (forall k :: 0 <= k < |slots| ==> SlotText(slots[k].value))
              && Marks(RenderTemplate(template, slots).value) == Marks(template)
  {
    FirstErrorExactly(slots);
    if RenderTemplate(template, slots).Ok? {
      RenderedStructure(template, slots);
      MarksAreStructure(RenderTemplate(template, slots).value);
      MarksAreStructure(template);
    }
  }
}
