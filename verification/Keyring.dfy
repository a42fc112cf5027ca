/** Organisation keyrings and their canonical bytes (signing-service/src/keyring.rs). */
module Keyring {
  import opened Bytes
  import opened CanonicalEncoding
  import opened StableSort
  import opened Descriptor
  import TextCodecs

  type Key = bytes32

  datatype Role = Owner | Admin | Deployer {
    function Text(): bytes {
      match this
      case Owner => Ascii("owner")
      case Admin => Ascii("admin")
      case Deployer => Ascii("deployer")
    }

    predicate CanDeploy() {
      Owner? || Admin? || Deployer?
    }
  }

  datatype Member = Member(userId: bytes16, pubkey: Key, role: Role, addedAt: bytes)

  datatype OrgKeyring = OrgKeyring(orgId: bytes16, version: u64, members: seq<Member>, updatedAt: bytes)

  function UserId(m: Member): bytes {
    m.userId
  }

  function MemberRecords(m: Member): seq<Record> {
    [Record(Ascii("user_id"), m.userId), Record(Ascii("pubkey"), m.pubkey),
     Record(Ascii("role"), m.role.Text()), Record(Ascii("added_at"), m.addedAt)]
  }

  /** One record per member, stably sorted by user id and labelled with its text. */
  function MemberListRecords(h: Digest, members: seq<Member>): seq<Record> {
    var sorted := Sort(members, UserId);
    seq(|sorted|, i requires 0 <= i < |sorted| =>
      Record(TextCodecs.UuidText(sorted[i].userId), h(Encode(MemberRecords(sorted[i])))))
  }

  const KEYRING_PURPOSE: bytes := Ascii("enclava-org-keyring-v1")

  function KeyringRecords(h: Digest, k: OrgKeyring): seq<Record> {
    [Record(Ascii("purpose"), KEYRING_PURPOSE),
     Record(Ascii("org_id"), k.orgId),
     Record(Ascii("version"), BigEndian(k.version, 8)),
     Record(Ascii("members"), h(Encode(MemberListRecords(h, k.members)))),
     Record(Ascii("updated_at"), k.updatedAt)]
  }

  function KeyringBytes(h: Digest, k: OrgKeyring): bytes {
    Encode(KeyringRecords(h, k))
  }

  predicate KeyringFits(h: Digest, k: OrgKeyring) {
    && (forall m :: m in k.members ==> AllFit(MemberRecords(m)))
    && AllFit(MemberListRecords(h, k.members))
    && AllFit(KeyringRecords(h, k))
  }

  function KeyringPreimages(h: Digest, k: OrgKeyring): set<bytes> {
    (set m | m in k.members :: Encode(MemberRecords(m))) + {Encode(MemberListRecords(h, k.members))}
  }

  /** Agreement on every field, members being compared user by user. */
  ghost predicate KeyringEquivalent(a: OrgKeyring, b: OrgKeyring) {
    && a.orgId == b.orgId && a.version == b.version && a.updatedAt == b.updatedAt
    && SameGroups(a.members, b.members, UserId)
  }

  lemma RoleTextInjective(a: Role, b: Role)
    requires a.Text() == b.Text()
    ensures a == b
  {
    assert |a.Text()| == |b.Text()|;
    assert a.Text()[0] == b.Text()[0];
  }

  lemma MemberBinding(h: Digest, s: set<bytes>, a: Member, b: Member)
    requires AllFit(MemberRecords(a)) && AllFit(MemberRecords(b)) && !Collision(h, s)
    requires Encode(MemberRecords(a)) in s && Encode(MemberRecords(b)) in s
    requires h(Encode(MemberRecords(a))) == h(Encode(MemberRecords(b)))
    ensures a == b
  {
    var x, y := MemberRecords(a), MemberRecords(b);
    HashBinding(h, s, x, y);
    assert x[0].value == y[0].value && x[1].value == y[1].value;
    assert x[2].value == y[2].value && x[3].value == y[3].value;
    RoleTextInjective(a.role, b.role);
  }

  /** Sorting keeps the set of members. */
  lemma SortedMembers(members: seq<Member>)
    ensures forall m :: m in Sort(members, UserId) <==> m in members
  {
    SortProperties(members, UserId);
    SameEntries(members, Sort(members, UserId));
  }

  lemma MembersBinding(h: Digest, s: set<bytes>, a: OrgKeyring, b: OrgKeyring)
    requires KeyringFits(h, a) && KeyringFits(h, b) && !Collision(h, s)
    requires KeyringPreimages(h, a) <= s && KeyringPreimages(h, b) <= s
    requires h(Encode(MemberListRecords(h, a.members))) == h(Encode(MemberListRecords(h, b.members)))
    ensures SameGroups(a.members, b.members, UserId)
  {
    var x, y := Sort(a.members, UserId), Sort(b.members, UserId);
    var rx, ry := MemberListRecords(h, a.members), MemberListRecords(h, b.members);
    HashBinding(h, s, rx, ry);
    SortedMembers(a.members);
    SortedMembers(b.members);
    assert |x| == |rx| == |ry| == |y|;
    forall i | 0 <= i < |x| ensures x[i] == y[i] {
      assert x[i] in x && y[i] in y;
      assert rx[i].value == ry[i].value;
      MemberBinding(h, s, x[i], y[i]);
    }
    assert x == y;
    SortCharacterised(a.members, b.members, UserId);
  }

  /** The canonical bytes identify a keyring up to equivalence, unless two of the
      strings digested on the way collide. */
  lemma KeyringBinding(h: Digest, a: OrgKeyring, b: OrgKeyring)
    requires KeyringFits(h, a) && KeyringFits(h, b)
    ensures KeyringEquivalent(a, b) ==> KeyringBytes(h, a) == KeyringBytes(h, b)
    ensures KeyringBytes(h, a) == KeyringBytes(h, b) ==>
              || KeyringEquivalent(a, b)
              || Collision(h, KeyringPreimages(h, a) + KeyringPreimages(h, b))
  {
    SortCharacterised(a.members, b.members, UserId);
    var s := KeyringPreimages(h, a) + KeyringPreimages(h, b);
    if KeyringBytes(h, a) == KeyringBytes(h, b) && !Collision(h, s) {
      var x, y := KeyringRecords(h, a), KeyringRecords(h, b);
      EncodeInjective(x, y);
      assert x[1].value == y[1].value && x[2].value == y[2].value;
      assert x[3].value == y[3].value && x[4].value == y[4].value;
      PowValues();
      BigEndianInjective(a.version, b.version, 8);
      MembersBinding(h, s, a, b);
    }
  }

  /** Equivalent keyrings have the same members, whatever their order. */
  lemma EquivalentMembers(a: OrgKeyring, b: OrgKeyring, m: Member)
    requires KeyringEquivalent(a, b)
    ensures m in a.members <==> m in b.members
  {
    GroupMembers(a.members, UserId, m.userId);
    GroupMembers(b.members, UserId, m.userId);
    assert Group(a.members, UserId, m.userId) == Group(b.members, UserId, m.userId);
  }

  lemma ReorderedFits(h: Digest, k: OrgKeyring, members: seq<Member>)
    requires KeyringFits(h, k) && multiset(members) == multiset(k.members)
    ensures KeyringFits(h, k.(members := members))
  {
    SameEntries(k.members, members);
    var records, sorted := MemberListRecords(h, members), Sort(members, UserId);
    forall r | r in records ensures Fits(r) {
      var i :| 0 <= i < |records| && records[i] == r;
      assert r == Record(TextCodecs.UuidText(sorted[i].userId), h(Encode(MemberRecords(sorted[i]))));
    }
    var x, y := KeyringRecords(h, k), KeyringRecords(h, k.(members := members));
    assert x[1] == y[1] && x[4] == y[4] && x[4] in x;
  }

  /** Member order never shows in the canonical bytes exactly when entries that share a
      user id are equal (in particular when user ids are unique). Otherwise some
      reordering changes the bytes, unless the strings digested collide. */
  lemma MemberOrder(h: Digest, k: OrgKeyring) returns (reordered: OrgKeyring)
    requires KeyringFits(h, k)
    ensures KeysDetermine(k.members, UserId) ==>
              forall ms :: multiset(ms) == multiset(k.members) ==>
                KeyringBytes(h, k.(members := ms)) == KeyringBytes(h, k)
    ensures !KeysDetermine(k.members, UserId) ==>
              && reordered == k.(members := reordered.members)
              && multiset(reordered.members) == multiset(k.members)
              && (|| KeyringBytes(h, reordered) != KeyringBytes(h, k)
                  || Collision(h, KeyringPreimages(h, reordered) + KeyringPreimages(h, k)))
  {
    reordered := k;
    SortOrderBlind(k.members, UserId);
    if KeysDetermine(k.members, UserId) {
      forall ms | multiset(ms) == multiset(k.members)
        ensures KeyringBytes(h, k.(members := ms)) == KeyringBytes(h, k)
      {
        assert Sort(ms, UserId) == Sort(k.members, UserId);
        assert MemberListRecords(h, ms) == MemberListRecords(h, k.members);
      }
    } else {
      var ms :| multiset(ms) == multiset(k.members) && Sort(ms, UserId) != Sort(k.members, UserId);
      reordered := k.(members := ms);
      ReorderedFits(h, k, ms);
      SortCharacterised(ms, k.members, UserId);
      KeyringBinding(h, reordered, k);
    }
  }
}
