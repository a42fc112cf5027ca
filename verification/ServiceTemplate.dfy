/** The template that the service ships (templates/trustee-resource-policy-v1.1.rego): eight
    quoted slots, one on each line of a block, between a head and a tail without slots. */
module ServiceTemplate {
  import opened Bytes
  import opened TextRewriting
  import opened Descriptor
  import opened Template
  import opened RenderedValues
  import TextCodecs

  /** A line start and the name of the slot behind it. */
  type Part = (bytes, bytes)

  function Assemble(parts: seq<Part>, tail: bytes): bytes {
    if parts == [] then tail
    else parts[0].0 + [QUOTE] + (Needle(parts[0].1) + [QUOTE] + Assemble(parts[1..], tail))
  }

  /** The line end, the variable and the assignment before a slot. */
  function LineStart(variable: string): bytes {
    Ascii("\nexpected_" + variable + " := ")
  }

  function Parts(head: bytes): seq<Part> {
    [(head, Ascii("init_data_hash")),
     (LineStart("image_digest"), Ascii("image_digest")),
     (LineStart("signer_subject"), Ascii("signer_subject")),
     (LineStart("signer_issuer"), Ascii("signer_issuer")),
     (LineStart("namespace"), Ascii("namespace")),
     (LineStart("service_account"), Ascii("service_account")),
     (LineStart("identity_hash"), Ascii("identity_hash")),
     (LineStart("resource_path"), Ascii("kbs_resource_path"))]
  }

  /** The shipped text for its own head (lines 1 to 9, up to the first quote) and tail (what
      follows the last slot). */
  function ServiceText(head: bytes, tail: bytes): bytes {
    Assemble(Parts(head), tail)
  }

  /** What matters of the head and the tail. */
  ghost predicate Framed(head: bytes, tail: bytes) {
    QUOTE !in head && !Contains(head, OPEN) && !Contains(tail, OPEN)
  }

  ghost predicate PlainParts(parts: seq<Part>) {
    forall i :: 0 <= i < |parts| ==>
      QUOTE !in parts[i].0 && !Contains(parts[i].0, OPEN) && QUOTE !in Needle(parts[i].1)
  }

  /** The pieces between quotes, as far as the last slot. */
  function Pieces(parts: seq<Part>): (r: seq<bytes>)
    ensures |r| == 2 * |parts|
  {
    if parts == [] then [] else [parts[0].0, Needle(parts[0].1)] + Pieces(parts[1..])
  }

  lemma {:induction false} AssembledSplit(parts: seq<Part>, tail: bytes)
    requires PlainParts(parts)
    ensures Split(Assemble(parts, tail), QUOTE) == Pieces(parts) + Split(tail, QUOTE)
  {
    if parts == [] {
      assert [] + Split(tail, QUOTE) == Split(tail, QUOTE);
    } else {
      var rest := Assemble(parts[1..], tail);
      AssembledSplit(parts[1..], tail);
      SplitPrepend(Needle(parts[0].1), QUOTE, rest);
      SplitPrepend(parts[0].0, QUOTE, Needle(parts[0].1) + [QUOTE] + rest);
      assert [parts[0].0] + ([Needle(parts[0].1)] + (Pieces(parts[1..]) + Split(tail, QUOTE)))
          == [parts[0].0, Needle(parts[0].1)] + Pieces(parts[1..]) + Split(tail, QUOTE);
    }
  }

  lemma {:induction false} PiecesAt(parts: seq<Part>, k: nat)
    requires k < |parts|
    ensures Pieces(parts)[2 * k] == parts[k].0 && Pieces(parts)[2 * k + 1] == Needle(parts[k].1)
  {
    if k == 0 {
    } else {
      PiecesAt(parts[1..], k - 1);
    }
  }

  lemma AssembledStandsAlone(parts: seq<Part>, tail: bytes, slots: seq<Slot>)
    requires PlainParts(parts) && !Contains(tail, OPEN) && |parts| == |slots|
    requires forall k :: 0 <= k < |parts| ==> parts[k].1 == slots[k].name
    ensures SlotsStandAlone(Assemble(parts, tail), slots)
  {
    AssembledSplit(parts, tail);
    var segments := Split(Assemble(parts, tail), QUOTE);
    JoinSplit(tail, QUOTE);
    ContainsJoin(Split(tail, QUOTE), QUOTE, OPEN);
    forall i | 0 <= i < |segments| ensures IsSlot(segments[i], slots) || !Contains(segments[i], OPEN) {
      if i < 2 * |parts| {
        PiecesAt(parts, i / 2);
        assert i == 2 * (i / 2) || i == 2 * (i / 2) + 1;
        assert segments[i] == Pieces(parts)[i];
      } else {
        assert segments[i] == Split(tail, QUOTE)[i - 2 * |parts|];
      }
    }
  }

  lemma PlainStart(variable: string)
    requires LowerName(variable)
    ensures QUOTE !in LineStart(variable) && !Contains(LineStart(variable), OPEN)
  {
    var s := "\nexpected_" + variable + " := ";
    forall i | 0 <= i < |s| ensures Ascii(s)[i] != QUOTE && Ascii(s)[i] != OPEN[0] {
      assert s[i] in "\nexpected_" || s[i] in variable || s[i] in " := ";
    }
    if Contains(Ascii(s), OPEN) {
      var i :| 0 <= i <= |Ascii(s)| && OccursAt(Ascii(s), OPEN, i);
      OccursElement(Ascii(s), OPEN, i, 0);
    }
  }

  ghost predicate PlainPart(p: Part) {
    QUOTE !in p.0 && !Contains(p.0, OPEN)
  }

  lemma FirstParts(head: bytes)
    requires QUOTE !in head && !Contains(head, OPEN)
    ensures forall k :: 0 <= k < 4 ==> PlainPart(Parts(head)[k])
  {
    NamesAreLower();
    PlainStart("image_digest");
    PlainStart("signer_subject");
    PlainStart("signer_issuer");
  }

  lemma LastParts(head: bytes)
    ensures forall k :: 4 <= k < 8 ==> PlainPart(Parts(head)[k])
  {
    NamesAreLower();
    PlainStart("namespace");
    PlainStart("service_account");
    PlainStart("identity_hash");
    PlainStart("resource_path");
  }

  lemma PartsNamed(head: bytes, d: DeploymentDescriptor)
    ensures |Parts(head)| == 8
    ensures forall k :: 0 <= k < 8 ==> Parts(head)[k].1 == SlotsOf(d)[k].name
  {
  }

  lemma PartsArePlain(head: bytes, d: DeploymentDescriptor)
    requires QUOTE !in head && !Contains(head, OPEN)
    ensures PlainParts(Parts(head))
  {
    FirstParts(head);
    LastParts(head);
    PartsNamed(head, d);
    SlotNames(d);
    var parts := Parts(head);
    forall k | 0 <= k < 8 ensures PlainPart(parts[k]) && QUOTE !in Needle(parts[k].1) {
      NeedleHasNoQuote(SlotsOf(d)[k].name);
    }
  }

  /** In the shipped text every slot stands alone, and each of the eight slots occurs. */
  lemma ServiceSlotsStandAlone(head: bytes, tail: bytes, d: DeploymentDescriptor, k: nat)
    requires Framed(head, tail) && k < 8
    ensures SlotsStandAlone(ServiceText(head, tail), SlotsOf(d))
    ensures var segments := Split(ServiceText(head, tail), QUOTE);
            2 * k + 1 < |segments| && segments[2 * k + 1] == Needle(SlotsOf(d)[k].name)
  {
    PartsArePlain(head, d);
    PartsNamed(head, d);
    AssembledStandsAlone(Parts(head), tail, SlotsOf(d));
    AssembledSplit(Parts(head), tail);
    PiecesAt(Parts(head), k);
  }

  lemma AllOccur(head: bytes, tail: bytes, d: DeploymentDescriptor)
    requires Framed(head, tail)
    ensures forall k :: 0 <= k < |SlotsOf(d)| ==> Occurs(ServiceText(head, tail), SlotsOf(d)[k])
  {
    forall k | 0 <= k < 8 ensures Occurs(ServiceText(head, tail), SlotsOf(d)[k]) {
      ServiceSlotsStandAlone(head, tail, d, k);
    }
  }

  lemma PlainWhenAllOccur(template: bytes, slots: seq<Slot>)
    requires forall k :: 0 <= k < |slots| ==> Occurs(template, slots[k])
    ensures OccurringPlain(template, slots) <==> ValuesPlain(slots)
  {
  }

  /** The service renders a descriptor as one simultaneous substitution exactly when its eight
      values are accepted and none contains an opening brace pair. */
  lemma ServiceIsSimultaneous(head: bytes, tail: bytes, d: DeploymentDescriptor)
    requires Framed(head, tail)
    ensures var template := ServiceText(head, tail);
            RenderTemplate(template, SlotsOf(d)) == Ok(Simultaneous(template, SlotsOf(d))) <==>
            AllAccepted(SlotsOf(d)) && ValuesPlain(SlotsOf(d))
  {
    SlotNames(d);
    ServiceSlotsStandAlone(head, tail, d, 0);
    AllOccur(head, tail, d);
    PlainWhenAllOccur(ServiceText(head, tail), SlotsOf(d));
    SequentialIsSimultaneous(ServiceText(head, tail), SlotsOf(d));
  }

  /** The resolved values stand at fixed places of a rendered policy; a descriptor value is its
      resolved value exactly when it contains no opening brace pair. */
  lemma ServiceValues(head: bytes, tail: bytes, d: DeploymentDescriptor, k: nat)
    requires Framed(head, tail) && k < 8
    requires RenderTemplate(ServiceText(head, tail), SlotsOf(d)).Ok?
    ensures var parts := Split(RenderTemplate(ServiceText(head, tail), SlotsOf(d)).value, QUOTE);
            && 2 * k + 1 < |parts| && parts[2 * k + 1] == Resolved(SlotsOf(d))[k].value
            && (parts[2 * k + 1] == SlotsOf(d)[k].value <==> !Contains(SlotsOf(d)[k].value, OPEN))
  {
    SlotNames(d);
    ServiceSlotsStandAlone(head, tail, d, k);
    ValuesRecovered(ServiceText(head, tail), SlotsOf(d), 2 * k + 1, k);
  }

  lemma {:induction false} HexHasNoBrace(b: bytes)
    ensures forall c :: c in TextCodecs.HexEncode(b) ==> c != 123
    ensures !Contains(TextCodecs.HexEncode(b), OPEN)
  {
    if b == [] {
    } else {
      HexHasNoBrace(b[1..]);
    }
    if Contains(TextCodecs.HexEncode(b), OPEN) {
      ContainsFirst(TextCodecs.HexEncode(b));
    }
  }

  lemma ContainsFirst(text: bytes)
    requires Contains(text, OPEN)
    ensures 123 in text
  {
    var i :| 0 <= i <= |text| && OccursAt(text, OPEN, i);
    OccursElement(text, OPEN, i, 0);
  }

  /** Two descriptors that render give the same policy text exactly when their resolved values
      agree. The two digests are then equal in any case; the other values are when none contains
      an opening brace pair. */
  lemma PolicyTextBindsDescriptor(head: bytes, tail: bytes, a: DeploymentDescriptor, b: DeploymentDescriptor)
    requires Framed(head, tail)
    requires RenderTemplate(ServiceText(head, tail), SlotsOf(a)).Ok?
    requires RenderTemplate(ServiceText(head, tail), SlotsOf(b)).Ok?
    ensures var same := RenderTemplate(ServiceText(head, tail), SlotsOf(a))
                        == RenderTemplate(ServiceText(head, tail), SlotsOf(b));
            && (same <==> forall k :: 0 <= k < 8 ==> Resolved(SlotsOf(a))[k].value == Resolved(SlotsOf(b))[k].value)
            && (same ==> a.expectedCcInitDataHash == b.expectedCcInitDataHash && a.identityHash == b.identityHash)
            && (same && ValuesPlain(SlotsOf(a)) && ValuesPlain(SlotsOf(b)) ==>
                  && a.imageDigest == b.imageDigest && a.signerIdentity == b.signerIdentity
                  && a.namespace == b.namespace && a.serviceAccount == b.serviceAccount
                  && a.kbsResourcePath == b.kbsResourcePath)
  {
    var template := ServiceText(head, tail);
    ResolvedDecide(head, tail, a, b);
    if RenderTemplate(template, SlotsOf(a)) == RenderTemplate(template, SlotsOf(b)) {
      DigestsRead(a, b);
      if ValuesPlain(SlotsOf(a)) && ValuesPlain(SlotsOf(b)) {
        forall k | 0 <= k < 8 ensures SlotsOf(a)[k].value == SlotsOf(b)[k].value {
          PlainResolved(SlotsOf(a), k);
          PlainResolved(SlotsOf(b), k);
        }
        EightValues(a, b);
      }
    }
  }

  lemma ResolvedDecide(head: bytes, tail: bytes, a: DeploymentDescriptor, b: DeploymentDescriptor)
    requires Framed(head, tail)
    requires RenderTemplate(ServiceText(head, tail), SlotsOf(a)).Ok?
    requires RenderTemplate(ServiceText(head, tail), SlotsOf(b)).Ok?
    ensures RenderTemplate(ServiceText(head, tail), SlotsOf(a)) == RenderTemplate(ServiceText(head, tail), SlotsOf(b))
            <==> forall k :: 0 <= k < 8 ==> Resolved(SlotsOf(a))[k].value == Resolved(SlotsOf(b))[k].value
  {
    SlotNames(a);
    ServiceSlotsStandAlone(head, tail, a, 0);
    AllOccur(head, tail, a);
    NamesShared(a, b);
    EverySlotDecides(ServiceText(head, tail), SlotsOf(a), SlotsOf(b));
  }

  lemma NamesShared(a: DeploymentDescriptor, b: DeploymentDescriptor)
    ensures SameNames(SlotsOf(a), SlotsOf(b))
  {
  }

  lemma EverySlotDecides(template: bytes, x: seq<Slot>, y: seq<Slot>)
    requires WellNamed(x) && SameNames(x, y) && SlotsStandAlone(template, x)
    requires RenderTemplate(template, x).Ok? && RenderTemplate(template, y).Ok?
    requires forall k :: 0 <= k < |x| ==> Occurs(template, x[k])
    ensures RenderTemplate(template, x) == RenderTemplate(template, y) <==>
            forall k :: 0 <= k < |x| ==> Resolved(x)[k].value == Resolved(y)[k].value
  {
    RenderInjective(template, x, y);
  }

  lemma DigestsPlain(d: DeploymentDescriptor)
    ensures Resolved(SlotsOf(d))[0].value == TextCodecs.HexEncode(d.expectedCcInitDataHash)
    ensures Resolved(SlotsOf(d))[6].value == TextCodecs.HexEncode(d.identityHash)
  {
    HexHasNoBrace(d.expectedCcInitDataHash);
    HexHasNoBrace(d.identityHash);
    PlainResolved(SlotsOf(d), 0);
    PlainResolved(SlotsOf(d), 6);
  }

  lemma DigestsRead(a: DeploymentDescriptor, b: DeploymentDescriptor)
    requires forall k :: 0 <= k < 8 ==> Resolved(SlotsOf(a))[k].value == Resolved(SlotsOf(b))[k].value
    ensures a.expectedCcInitDataHash == b.expectedCcInitDataHash && a.identityHash == b.identityHash
  {
    DigestsPlain(a);
    DigestsPlain(b);
    TextCodecs.HexRoundTrip(a.expectedCcInitDataHash);
    TextCodecs.HexRoundTrip(b.expectedCcInitDataHash);
    TextCodecs.HexRoundTrip(a.identityHash);
    TextCodecs.HexRoundTrip(b.identityHash);
  }

  // ----------------------------------------- when one policy text has one descriptor

  /** The slots whose values a descriptor chooses freely: all but the two digests. */
  const FREE: set<nat> := {1, 2, 3, 4, 5, 7}

  ghost predicate SameNamedFields(d: DeploymentDescriptor, e: DeploymentDescriptor) {
    && d.expectedCcInitDataHash == e.expectedCcInitDataHash && d.imageDigest == e.imageDigest
    && d.signerIdentity == e.signerIdentity && d.namespace == e.namespace
    && d.serviceAccount == e.serviceAccount && d.identityHash == e.identityHash
    && d.kbsResourcePath == e.kbsResourcePath
  }

  /** No value contains the value of a later slot; the digests may. */
  ghost predicate ValuesSeparate(d: DeploymentDescriptor) {
    forall k, m :: 1 <= k <= 5 && k < m < 8 ==> !Contains(SlotsOf(d)[k].value, SlotsOf(d)[m].value)
  }

  function WithValues(d: DeploymentDescriptor, b: seq<Slot>): DeploymentDescriptor
    requires |b| == 8
  {
    d.(imageDigest := b[1].value, signerIdentity := SignerIdentity(b[2].value, b[3].value),
       namespace := b[4].value, serviceAccount := b[5].value, kbsResourcePath := b[7].value)
  }

  lemma WithValuesSlots(d: DeploymentDescriptor, b: seq<Slot>)
    requires SameNames(SlotsOf(d), b) && b[0] == SlotsOf(d)[0] && b[6] == SlotsOf(d)[6]
    ensures |b| == 8 && SlotsOf(WithValues(d, b)) == b
  {
    var s := SlotsOf(WithValues(d, b));
    assert s[0] == b[0] && s[1] == b[1] && s[2] == b[2] && s[3] == b[3];
    assert s[4] == b[4] && s[5] == b[5] && s[6] == b[6] && s[7] == b[7];
  }

  lemma SameSlots(d: DeploymentDescriptor, e: DeploymentDescriptor)
    ensures SlotsOf(d) == SlotsOf(e) <==> SameNamedFields(d, e)
  {
    if SlotsOf(d) == SlotsOf(e) {
      EightValues(d, e);
    }
  }

  lemma ServiceSetting(head: bytes, tail: bytes, d: DeploymentDescriptor)
    requires Framed(head, tail) && RenderTemplate(ServiceText(head, tail), SlotsOf(d)).Ok?
    ensures Setting(ServiceText(head, tail), SlotsOf(d), FREE)
  {
    SlotNames(d);
    ServiceSlotsStandAlone(head, tail, d, 0);
    AllOccur(head, tail, d);
    HexHasNoBrace(d.expectedCcInitDataHash);
    HexHasNoBrace(d.identityHash);
    FreeSlots(SlotsOf(d));
  }

  lemma FreeSlots(a: seq<Slot>)
    requires |a| == 8 && !Contains(a[0].value, OPEN) && !Contains(a[6].value, OPEN)
    ensures forall k :: 0 <= k < |a| && k !in FREE ==> !Contains(a[k].value, OPEN)
  {
  }

  lemma SeparateFree(d: DeploymentDescriptor)
    ensures Separate(SlotsOf(d), FREE) <==> ValuesSeparate(d)
  {
    assert |SlotsOf(d)| == 8;
    if ValuesSeparate(d) {
      forall k, m | k in FREE && 0 <= k < m < 8 ensures !Contains(SlotsOf(d)[k].value, SlotsOf(d)[m].value) {
        assert 1 <= k <= 5;
      }
    }
  }

  /** A descriptor with the same policy text is a rival of the slots. */
  lemma DescriptorIsRival(head: bytes, tail: bytes, d: DeploymentDescriptor, e: DeploymentDescriptor)
    requires Framed(head, tail) && RenderTemplate(ServiceText(head, tail), SlotsOf(d)).Ok?
    requires RenderTemplate(ServiceText(head, tail), SlotsOf(e)) == RenderTemplate(ServiceText(head, tail), SlotsOf(d))
    ensures Rival(ServiceText(head, tail), SlotsOf(d), FREE, SlotsOf(e))
  {
    ResolvedDecide(head, tail, d, e);
    DigestsRead(d, e);
    NamesShared(d, e);
    DigestSlots(d, e);
  }

  lemma DigestSlots(d: DeploymentDescriptor, e: DeploymentDescriptor)
    requires d.expectedCcInitDataHash == e.expectedCcInitDataHash && d.identityHash == e.identityHash
    ensures forall k :: 0 <= k < |SlotsOf(d)| && k !in FREE ==> SlotsOf(e)[k] == SlotsOf(d)[k]
  {
  }

  /** Every descriptor with the policy text of `d` has the eight values of `d`. */
  ghost predicate TextDetermines(template: bytes, d: DeploymentDescriptor) {
    forall e :: RenderTemplate(template, SlotsOf(e)) == RenderTemplate(template, SlotsOf(d)) ==>
                  SameNamedFields(e, d)
  }

  ghost predicate NoRival(template: bytes, a: seq<Slot>) {
    forall b :: Rival(template, a, FREE, b) ==> b == a
  }

  lemma NoRivalDetermines(head: bytes, tail: bytes, d: DeploymentDescriptor)
    requires Framed(head, tail) && RenderTemplate(ServiceText(head, tail), SlotsOf(d)).Ok?
    requires NoRival(ServiceText(head, tail), SlotsOf(d))
    ensures TextDetermines(ServiceText(head, tail), d)
  {
    var template := ServiceText(head, tail);
    forall e | RenderTemplate(template, SlotsOf(e)) == RenderTemplate(template, SlotsOf(d))
      ensures SameNamedFields(e, d)
    {
      DescriptorIsRival(head, tail, d, e);
      SameSlots(e, d);
    }
  }

  lemma RivalHasDescriptor(template: bytes, d: DeploymentDescriptor, b: seq<Slot>)
    requires Rival(template, SlotsOf(d), FREE, b) && b != SlotsOf(d)
    ensures !TextDetermines(template, d)
  {
    WithValuesSlots(d, b);
    SameSlots(WithValues(d, b), d);
  }

  /** The policy text of a descriptor determines its eight values, among all descriptors, exactly
      when none of them contains an opening brace pair and none but the digests contains the value
      of a later slot. */
  lemma TextDeterminesDescriptor(head: bytes, tail: bytes, d: DeploymentDescriptor)
    requires Framed(head, tail) && RenderTemplate(ServiceText(head, tail), SlotsOf(d)).Ok?
    ensures TextDetermines(ServiceText(head, tail), d) <==> ValuesPlain(SlotsOf(d)) && ValuesSeparate(d)
  {
    var template := ServiceText(head, tail);
    ServiceSetting(head, tail, d);
    DeterminedExactly(template, SlotsOf(d), FREE);
    SeparateFree(d);
    if NoRival(template, SlotsOf(d)) {
      NoRivalDetermines(head, tail, d);
    } else {
      var b :| Rival(template, SlotsOf(d), FREE, b) && b != SlotsOf(d);
      RivalHasDescriptor(template, d, b);
    }
  }

  /** Where the simple forms fail, on the service's own text: an image digest that is the text of
      the namespace slot is accepted and rendered as the namespace, so two different descriptors
      have one policy text, and the second is not rendered simultaneously. */
  lemma NestedSlotIsRewritten(head: bytes, tail: bytes, d: DeploymentDescriptor, e: DeploymentDescriptor)
    requires Framed(head, tail) && AllAccepted(SlotsOf(d)) && ValuesPlain(SlotsOf(d))
    requires d.imageDigest == d.namespace && e == d.(imageDigest := Needle(Ascii("namespace")))
    ensures e != d && AllAccepted(SlotsOf(e))
    ensures var template := ServiceText(head, tail);
            && RenderTemplate(template, SlotsOf(d)).Ok?
            && RenderTemplate(template, SlotsOf(e)) == RenderTemplate(template, SlotsOf(d))
            && RenderTemplate(template, SlotsOf(e)) != Ok(Simultaneous(template, SlotsOf(e)))
  {
    var template := ServiceText(head, tail);
    ServiceIsSimultaneous(head, tail, d);
    ServiceIsSimultaneous(head, tail, e);
    NamespaceText(d, e);
    NestedResolved(d, e);
    SlotNames(e);
    SlotNames(d);
    ServiceSlotsStandAlone(head, tail, d, 0);
    ServiceSlotsStandAlone(head, tail, e, 0);
    AllOccur(head, tail, d);
    PlainWhenAllOccur(template, SlotsOf(d));
    RenderSucceeds(template, SlotsOf(e));
  }

  lemma NamespaceText(d: DeploymentDescriptor, e: DeploymentDescriptor)
    requires AllAccepted(SlotsOf(d)) && ValuesPlain(SlotsOf(d))
    requires e == d.(imageDigest := Needle(Ascii("namespace")))
    ensures Accepted(e.imageDigest) && Contains(e.imageDigest, OPEN)
    ensures AllAccepted(SlotsOf(e)) && !ValuesPlain(SlotsOf(e)) && e != d
  {
    NamesAreLower();
    LowerIsPlain("namespace");
    assert OccursAt(e.imageDigest, OPEN, 0);
    assert SlotsOf(e)[1].value == e.imageDigest;
    assert SlotsOf(d)[1].value == d.imageDigest;
    OneChanged(d, e);
  }

  lemma NestedResolved(d: DeploymentDescriptor, e: DeploymentDescriptor)
    requires ValuesPlain(SlotsOf(d)) && d.imageDigest == d.namespace
    requires e == d.(imageDigest := Needle(Ascii("namespace")))
    ensures Resolved(SlotsOf(e)) == SlotsOf(d)
  {
    SlotNames(e);
    OneChanged(d, e);
    assert SlotsOf(e)[4].value == d.namespace && SlotsOf(d)[4].value == d.namespace;
    NamedResolved(SlotsOf(e), 1, 4);
    SameButOne(SlotsOf(d), SlotsOf(e), 1);
  }

  lemma OneChanged(d: DeploymentDescriptor, e: DeploymentDescriptor)
    requires e == d.(imageDigest := e.imageDigest)
    ensures SlotsOf(e) == SlotsOf(d)[1 := Slot(Ascii("image_digest"), e.imageDigest)]
    ensures SlotsOf(d)[1] == Slot(Ascii("image_digest"), d.imageDigest)
  {
  }

  lemma SameButOne(x: seq<Slot>, y: seq<Slot>, m: nat)
    requires |x| == |y| && m < |x| && ValuesPlain(x) && Resolved(y)[m] == x[m]
    requires forall k :: 0 <= k < |x| && k != m ==> y[k] == x[k]
    ensures forall k :: 0 <= k < |x| ==> Resolved(y)[k] == x[k]
  {
    forall k | 0 <= k < |x| ensures Resolved(y)[k] == x[k] {
      if k != m {
        PlainResolved(y, k);
      }
    }
  }

  lemma EightValues(a: DeploymentDescriptor, b: DeploymentDescriptor)
    requires forall k :: 0 <= k < 8 ==> SlotsOf(a)[k].value == SlotsOf(b)[k].value
    ensures a.expectedCcInitDataHash == b.expectedCcInitDataHash && a.imageDigest == b.imageDigest
    ensures a.signerIdentity == b.signerIdentity && a.namespace == b.namespace
    ensures a.serviceAccount == b.serviceAccount && a.identityHash == b.identityHash
    ensures a.kbsResourcePath == b.kbsResourcePath
  {
    var x, y := SlotsOf(a), SlotsOf(b);
    assert x[0].value == y[0].value && x[1].value == y[1].value && x[2].value == y[2].value;
    assert x[3].value == y[3].value && x[4].value == y[4].value && x[5].value == y[5].value;
    assert x[6].value == y[6].value && x[7].value == y[7].value;
    TextCodecs.HexRoundTrip(a.expectedCcInitDataHash);
    TextCodecs.HexRoundTrip(b.expectedCcInitDataHash);
    TextCodecs.HexRoundTrip(a.identityHash);
    TextCodecs.HexRoundTrip(b.identityHash);
  }

  /** A rendered policy, read between its quotes: the head, then alternately the assignment of a
      variable and a value, for descriptors whose values have no brace pair the field itself. */
  lemma RenderedFields(head: bytes, tail: bytes, d: DeploymentDescriptor)
    requires Framed(head, tail) && RenderTemplate(ServiceText(head, tail), SlotsOf(d)).Ok?
    requires ValuesPlain(SlotsOf(d))
    ensures var parts := Split(RenderTemplate(ServiceText(head, tail), SlotsOf(d)).value, QUOTE);
            && |parts| > 15
            && parts[1] == TextCodecs.HexEncode(d.expectedCcInitDataHash) && parts[3] == d.imageDigest
            && parts[5] == d.signerIdentity.subject && parts[7] == d.signerIdentity.issuer
            && parts[9] == d.namespace && parts[11] == d.serviceAccount
            && parts[13] == TextCodecs.HexEncode(d.identityHash) && parts[15] == d.kbsResourcePath
  {
    forall k | 0 <= k < 8
      ensures var parts := Split(RenderTemplate(ServiceText(head, tail), SlotsOf(d)).value, QUOTE);
              2 * k + 1 < |parts| && parts[2 * k + 1] == SlotsOf(d)[k].value
    {
      ServiceValues(head, tail, d, k);
    }
    SlotFields(d);
    var parts := Split(RenderTemplate(ServiceText(head, tail), SlotsOf(d)).value, QUOTE);
    assert parts[2 * 0 + 1] == SlotsOf(d)[0].value && parts[2 * 1 + 1] == SlotsOf(d)[1].value;
    assert parts[2 * 2 + 1] == SlotsOf(d)[2].value && parts[2 * 3 + 1] == SlotsOf(d)[3].value;
    assert parts[2 * 4 + 1] == SlotsOf(d)[4].value && parts[2 * 5 + 1] == SlotsOf(d)[5].value;
    assert parts[2 * 6 + 1] == SlotsOf(d)[6].value && parts[2 * 7 + 1] == SlotsOf(d)[7].value;
  }

  lemma SlotFields(d: DeploymentDescriptor)
    ensures var s := SlotsOf(d);
            && s[0].value == TextCodecs.HexEncode(d.expectedCcInitDataHash) && s[1].value == d.imageDigest
            && s[2].value == d.signerIdentity.subject && s[3].value == d.signerIdentity.issuer
            && s[4].value == d.namespace && s[5].value == d.serviceAccount
            && s[6].value == TextCodecs.HexEncode(d.identityHash) && s[7].value == d.kbsResourcePath
  {
  }

  /** The unrendered text between its quotes: after `expected_namespace := ` stands `{{namespace}}`,
      and so on for all eight variables. */
  lemma ServiceTextPieces(head: bytes, tail: bytes, d: DeploymentDescriptor)
    requires Framed(head, tail)
    ensures var pieces := Split(ServiceText(head, tail), QUOTE);
            && |pieces| >= 16 && pieces[0] == head && pieces[1] == Ascii("{{init_data_hash}}")
            && pieces[2] == Ascii("\nexpected_image_digest := ") && pieces[3] == Ascii("{{image_digest}}")
            && pieces[4] == Ascii("\nexpected_signer_subject := ") && pieces[5] == Ascii("{{signer_subject}}")
            && pieces[6] == Ascii("\nexpected_signer_issuer := ") && pieces[7] == Ascii("{{signer_issuer}}")
            && pieces[8] == Ascii("\nexpected_namespace := ") && pieces[9] == Ascii("{{namespace}}")
            && pieces[10] == Ascii("\nexpected_service_account := ") && pieces[11] == Ascii("{{service_account}}")
            && pieces[12] == Ascii("\nexpected_identity_hash := ") && pieces[13] == Ascii("{{identity_hash}}")
            && pieces[14] == Ascii("\nexpected_resource_path := ") && pieces[15] == Ascii("{{kbs_resource_path}}")
  {
    PartsArePlain(head, d);
    AssembledSplit(Parts(head), tail);
    InitDataPiece(head);
    DigestPiece(head);
    SubjectPiece(head);
    IssuerPiece(head);
    NamespacePiece(head);
    AccountPiece(head);
    IdentityPiece(head);
    ResourcePiece(head);
    var pieces := Pieces(Parts(head));
    assert forall i :: 0 <= i < 16 ==> Split(ServiceText(head, tail), QUOTE)[i] == pieces[i];
  }

  lemma NeedleText(name: string, text: string)
    requires text == "{{" + name + "}}" && forall c :: c in name ==> c as int < 256
    ensures Needle(Ascii(name)) == Ascii(text)
  {
  }

  lemma PieceTexts(parts: seq<Part>, k: nat, name: string, text: string)
    requires k < |parts| && parts[k].1 == Ascii(name) && text == "{{" + name + "}}"
    requires forall c :: c in name ==> c as int < 256
    ensures Pieces(parts)[2 * k] == parts[k].0 && Pieces(parts)[2 * k + 1] == Ascii(text)
  {
    PiecesAt(parts, k);
    NeedleText(name, text);
  }

  lemma StartText(variable: string, text: string)
    requires text == "\nexpected_" + variable + " := "
    ensures LineStart(variable) == Ascii(text)
  {
  }

  lemma PartTexts(head: bytes)
    ensures |Parts(head)| == 8 && Parts(head)[0] == (head, Ascii("init_data_hash"))
    ensures Parts(head)[1] == (LineStart("image_digest"), Ascii("image_digest"))
    ensures Parts(head)[2] == (LineStart("signer_subject"), Ascii("signer_subject"))
    ensures Parts(head)[3] == (LineStart("signer_issuer"), Ascii("signer_issuer"))
    ensures Parts(head)[4] == (LineStart("namespace"), Ascii("namespace"))
    ensures Parts(head)[5] == (LineStart("service_account"), Ascii("service_account"))
    ensures Parts(head)[6] == (LineStart("identity_hash"), Ascii("identity_hash"))
    ensures Parts(head)[7] == (LineStart("resource_path"), Ascii("kbs_resource_path"))
  {
  }

  lemma InitDataPiece(head: bytes)
    ensures Pieces(Parts(head))[0] == head
    ensures Pieces(Parts(head))[1] == Ascii("{{init_data_hash}}")
  {
    PartTexts(head);
    PieceTexts(Parts(head), 0, "init_data_hash", "{{init_data_hash}}");
  }

  lemma DigestPiece(head: bytes)
    ensures Pieces(Parts(head))[2] == Ascii("\nexpected_image_digest := ")
    ensures Pieces(Parts(head))[3] == Ascii("{{image_digest}}")
  {
    PartTexts(head);
    StartText("image_digest", "\nexpected_image_digest := ");
    PieceTexts(Parts(head), 1, "image_digest", "{{image_digest}}");
  }

  lemma SubjectPiece(head: bytes)
    ensures Pieces(Parts(head))[4] == Ascii("\nexpected_signer_subject := ")
    ensures Pieces(Parts(head))[5] == Ascii("{{signer_subject}}")
  {
    PartTexts(head);
    StartText("signer_subject", "\nexpected_signer_subject := ");
    PieceTexts(Parts(head), 2, "signer_subject", "{{signer_subject}}");
  }

  lemma IssuerPiece(head: bytes)
    ensures Pieces(Parts(head))[6] == Ascii("\nexpected_signer_issuer := ")
    ensures Pieces(Parts(head))[7] == Ascii("{{signer_issuer}}")
  {
    PartTexts(head);
    StartText("signer_issuer", "\nexpected_signer_issuer := ");
    PieceTexts(Parts(head), 3, "signer_issuer", "{{signer_issuer}}");
  }

  lemma NamespacePiece(head: bytes)
    ensures Pieces(Parts(head))[8] == Ascii("\nexpected_namespace := ")
    ensures Pieces(Parts(head))[9] == Ascii("{{namespace}}")
  {
    PartTexts(head);
    StartText("namespace", "\nexpected_namespace := ");
    PieceTexts(Parts(head), 4, "namespace", "{{namespace}}");
  }

  lemma AccountPiece(head: bytes)
    ensures Pieces(Parts(head))[10] == Ascii("\nexpected_service_account := ")
    ensures Pieces(Parts(head))[11] == Ascii("{{service_account}}")
  {
    PartTexts(head);
    StartText("service_account", "\nexpected_service_account := ");
    PieceTexts(Parts(head), 5, "service_account", "{{service_account}}");
  }

  lemma IdentityPiece(head: bytes)
    ensures Pieces(Parts(head))[12] == Ascii("\nexpected_identity_hash := ")
    ensures Pieces(Parts(head))[13] == Ascii("{{identity_hash}}")
  {
    PartTexts(head);
    StartText("identity_hash", "\nexpected_identity_hash := ");
    PieceTexts(Parts(head), 6, "identity_hash", "{{identity_hash}}");
  }

  lemma ResourcePiece(head: bytes)
    ensures Pieces(Parts(head))[14] == Ascii("\nexpected_resource_path := ")
    ensures Pieces(Parts(head))[15] == Ascii("{{kbs_resource_path}}")
  {
    PartTexts(head);
    StartText("resource_path", "\nexpected_resource_path := ");
    PieceTexts(Parts(head), 7, "kbs_resource_path", "{{kbs_resource_path}}");
  }
}
