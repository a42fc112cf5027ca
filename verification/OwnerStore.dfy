/** The owner registry: one row per organisation and a log of owner events
    (signing-service/src/owner_store.rs). A database transaction is atomic.
    Instants are integers; `TimeFormat` is their RFC 3339 text form. */
module OwnerRegistry {
  import opened Bytes
  import opened Keyring

  type OrgId = bytes16

  datatype TimeFormat = TimeFormat(format: int -> bytes, parse: bytes -> Option<int>)

  ghost predicate RoundTrips(times: TimeFormat) {
    forall t: int :: times.parse(times.format(t)) == Some(t)
  }

  datatype OwnerRow = OwnerRow(
    ownerPubkey: Key, version: int, bootstrappedAt: bytes, rotatedAt: Option<bytes>)

  datatype EventKind = Bootstrap | Rotation

  datatype OwnerEvent = OwnerEvent(
    orgId: OrgId, version: int, kind: EventKind, ownerPubkey: Key, occurredAt: bytes)

  /** Both tables; an event's id is its position. */
  datatype Db = Db(owners: map<OrgId, OwnerRow>, events: seq<OwnerEvent>)

  datatype OwnerRecord = OwnerRecord(
    orgId: OrgId, ownerPubkey: Key, version: nat, bootstrappedAt: int, rotatedAt: Option<int>)

  datatype BootstrapOutcome = Created | AlreadyExists

  datatype StoreError =
    | DifferentOwner | NotBootstrapped | NotPreviousOwner | NotCurrentOwner
    | ReplacementIsCurrent | NegativeVersion | BadTimestamp

  /** The conversions from a stored row to a record. */
  function ReadRecord(times: TimeFormat, org: OrgId, row: OwnerRow): Result<OwnerRecord, StoreError> {
    if row.version < 0 then Err(NegativeVersion)
    else if times.parse(row.bootstrappedAt).None? then Err(BadTimestamp)
    else if row.rotatedAt.Some? && times.parse(row.rotatedAt.value).None? then Err(BadTimestamp)
    else
      Ok(OwnerRecord(org, row.ownerPubkey, row.version, times.parse(row.bootstrappedAt).value,
                     if row.rotatedAt.Some? then times.parse(row.rotatedAt.value) else None))
  }

  /** The key of the latest event of an organisation with a given version. */
  function EventKey(events: seq<OwnerEvent>, org: OrgId, version: int): Option<Key> {
    if events == [] then None
    else
      var last := events[|events| - 1];
      if last.orgId == org && last.version == version then Some(last.ownerPubkey)
      else EventKey(events[..|events| - 1], org, version)
  }

  function BootstrapOwner(times: TimeFormat, db: Db, org: OrgId, key: Key, now: int)
    : (Db, Result<BootstrapOutcome, StoreError>)
  {
    if org in db.owners then
      (db, if db.owners[org].ownerPubkey == key then Ok(AlreadyExists) else Err(DifferentOwner))
    else
      (Db(db.owners[org := OwnerRow(key, 1, times.format(now), None)],
          db.events + [OwnerEvent(org, 1, Bootstrap, key, times.format(now))]),
       Ok(Created))
  }

  function GetOwner(times: TimeFormat, db: Db, org: OrgId): Result<Option<OwnerRecord>, StoreError> {
    if org !in db.owners then Ok(None)
    else
      var record := ReadRecord(times, org, db.owners[org]);
      if record.Err? then Err(record.error) else Ok(Some(record.value))
  }

  /** Compare-and-swap of the owner key. The conversions of the result run after the
      commit, so the state can change even when they fail. */
  function RotateOwner(times: TimeFormat, db: Db, org: OrgId, expected: Key, replacement: Key, now: int)
    : (Db, Result<OwnerRecord, StoreError>)
  {
    if org !in db.owners then (db, Err(NotBootstrapped))
    else
      var row := db.owners[org];
      if row.ownerPubkey == replacement && expected != replacement then
        if EventKey(db.events, org, row.version - 1) != Some(expected) then (db, Err(NotPreviousOwner))
        else (db, ReadRecord(times, org, row))
      else if row.ownerPubkey != expected then (db, Err(NotCurrentOwner))
      else if replacement == expected then (db, Err(ReplacementIsCurrent))
      else
        var version := row.version + 1;
        var text := times.format(now);
        (Db(db.owners[org := OwnerRow(replacement, version, row.bootstrappedAt, Some(text))],
            db.events + [OwnerEvent(org, version, Rotation, replacement, text)]),
         if version < 0 then Err(NegativeVersion)
         else if times.parse(row.bootstrappedAt).None? then Err(BadTimestamp)
         else Ok(OwnerRecord(org, replacement, version, times.parse(row.bootstrappedAt).value, Some(now))))
  }

  // ------------------------------------------------------------------ invariant

  /** The events of one organisation, oldest first. */
  function EventsOf(events: seq<OwnerEvent>, org: OrgId): seq<OwnerEvent> {
    if events == [] then []
    else
      var last := events[|events| - 1];
      EventsOf(events[..|events| - 1], org) + if last.orgId == org then [last] else []
  }

  /** Versions run 1, 2, ... n; the first event is the bootstrap and the others are
      rotations; neighbours hold different keys; every timestamp can be read back. */
  ghost predicate WellFormedHistory(times: TimeFormat, history: seq<OwnerEvent>) {
    && (forall i :: 0 <= i < |history| ==>
          && history[i].version == i + 1
          && (history[i].kind == Bootstrap <==> i == 0)
          && times.parse(history[i].occurredAt).Some?)
    && (forall i :: 0 <= i < |history| - 1 ==> history[i].ownerPubkey != history[i + 1].ownerPubkey)
  }

  /** The row that summarises a non-empty history. */
  function RowOf(history: seq<OwnerEvent>): OwnerRow
    requires history != []
  {
    var last := history[|history| - 1];
    OwnerRow(last.ownerPubkey, |history|, history[0].occurredAt,
             if |history| == 1 then None else Some(last.occurredAt))
  }

  ghost predicate OrgInvariant(times: TimeFormat, db: Db, org: OrgId) {
    var history := EventsOf(db.events, org);
    && WellFormedHistory(times, history)
    && (org in db.owners <==> history != [])
    && (history != [] ==> db.owners[org] == RowOf(history))
  }

  ghost predicate Invariant(times: TimeFormat, db: Db) {
    forall org: OrgId :: OrgInvariant(times, db, org)
  }

  lemma AppendedEvent(events: seq<OwnerEvent>, e: OwnerEvent, org: OrgId)
    ensures EventsOf(events + [e], org) == EventsOf(events, org) + if e.orgId == org then [e] else []
  {
    assert (events + [e])[..|events|] == events;
  }

  lemma EmptyInvariant(times: TimeFormat)
    ensures Invariant(times, Db(map[], []))
  {
  }

  /** In a well-formed history the event with a given version is at its own place. */
  lemma {:induction false} EventKeyInHistory(times: TimeFormat, events: seq<OwnerEvent>, org: OrgId,
                                             version: int)
    requires WellFormedHistory(times, EventsOf(events, org))
    ensures var history := EventsOf(events, org);
            EventKey(events, org, version)
            == if 1 <= version <= |history| then Some(history[version - 1].ownerPubkey) else None
  {
    if events == [] {
    } else {
      var front, last := events[..|events| - 1], events[|events| - 1];
      var history, shorter := EventsOf(events, org), EventsOf(front, org);
      if last.orgId == org {
        assert history == shorter + [last] && history[|shorter|] == last;
      } else {
        assert history == shorter + [] == shorter;
      }
      assert forall i :: 0 <= i < |shorter| ==> shorter[i] == history[i];
      EventKeyInHistory(times, front, org, version);
    }
  }

  lemma OtherOrgUnaffected(times: TimeFormat, db: Db, after: Db, e: OwnerEvent, other: OrgId)
    requires OrgInvariant(times, db, other) && e.orgId != other
    requires after.events == db.events + [e]
    requires other in after.owners <==> other in db.owners
    requires other in db.owners ==> after.owners[other] == db.owners[other]
    ensures OrgInvariant(times, after, other)
  {
    AppendedEvent(db.events, e, other);
    assert EventsOf(after.events, other) == EventsOf(db.events, other);
  }

  /** A first event and its row form a well-formed history. */
  lemma FirstEvent(times: TimeFormat, db: Db, after: Db, e: OwnerEvent)
    requires EventsOf(db.events, e.orgId) == [] && after.events == db.events + [e]
    requires e.version == 1 && e.kind == Bootstrap && times.parse(e.occurredAt).Some?
    requires e.orgId in after.owners
    requires after.owners[e.orgId] == OwnerRow(e.ownerPubkey, 1, e.occurredAt, None)
    ensures OrgInvariant(times, after, e.orgId)
  {
    AppendedEvent(db.events, e, e.orgId);
    assert EventsOf(after.events, e.orgId) == [e];
  }

  lemma BootstrapKeepsInvariant(times: TimeFormat, db: Db, org: OrgId, key: Key, now: int)
    requires RoundTrips(times) && Invariant(times, db)
    ensures Invariant(times, BootstrapOwner(times, db, org, key, now).0)
  {
    var after := BootstrapOwner(times, db, org, key, now).0;
    if org !in db.owners {
      var e := OwnerEvent(org, 1, Bootstrap, key, times.format(now));
      assert OrgInvariant(times, db, org);
      forall other: OrgId ensures OrgInvariant(times, after, other) {
        if other == org {
          FirstEvent(times, db, after, e);
        } else {
          assert OrgInvariant(times, db, other);
          OtherOrgUnaffected(times, db, after, e, other);
        }
      }
    }
  }

  /** A rotation event and its row extend a well-formed history. */
  lemma NextEvent(times: TimeFormat, db: Db, after: Db, e: OwnerEvent)
    requires OrgInvariant(times, db, e.orgId) && e.orgId in db.owners
    requires after.events == db.events + [e]
    requires e.version == db.owners[e.orgId].version + 1 && e.kind == Rotation
    requires e.ownerPubkey != db.owners[e.orgId].ownerPubkey && times.parse(e.occurredAt).Some?
    requires e.orgId in after.owners
    requires after.owners[e.orgId]
             == OwnerRow(e.ownerPubkey, e.version, db.owners[e.orgId].bootstrappedAt, Some(e.occurredAt))
    ensures OrgInvariant(times, after, e.orgId)
  {
    AppendedEvent(db.events, e, e.orgId);
    assert EventsOf(after.events, e.orgId) == EventsOf(db.events, e.orgId) + [e];
  }

  lemma RotateKeepsInvariant(times: TimeFormat, db: Db, org: OrgId, expected: Key, replacement: Key,
                             now: int)
    requires RoundTrips(times) && Invariant(times, db)
    ensures Invariant(times, RotateOwner(times, db, org, expected, replacement, now).0)
  {
    var after := RotateOwner(times, db, org, expected, replacement, now).0;
    if after != db {
      var e := OwnerEvent(org, db.owners[org].version + 1, Rotation, replacement, times.format(now));
      assert OrgInvariant(times, db, org);
      forall other: OrgId ensures OrgInvariant(times, after, other) {
        if other == org {
          NextEvent(times, db, after, e);
        } else {
          assert OrgInvariant(times, db, other);
          OtherOrgUnaffected(times, db, after, e, other);
        }
      }
    }
  }

  /** What a rotation does to a database that satisfies the invariant, outcome by
      outcome. In particular the conversions after the commit cannot fail, and every
      error leaves both tables as they were. */
  lemma RotateEffect(times: TimeFormat, db: Db, org: OrgId, expected: Key, replacement: Key, now: int)
    requires RoundTrips(times) && Invariant(times, db)
    ensures var history := EventsOf(db.events, org);
            var n := |history|;
            var (after, r) := RotateOwner(times, db, org, expected, replacement, now);
            && (r.Err? ==> after == db && r.error !in {NegativeVersion, BadTimestamp})
            && (r.Ok? ==> r.value.orgId == org && r.value.ownerPubkey == replacement)
            && (r.Ok? && after != db <==>
                  n > 0 && history[n - 1].ownerPubkey == expected && expected != replacement)
            && (r.Ok? && after == db <==>
                  n > 1 && history[n - 1].ownerPubkey == replacement
                  && history[n - 2].ownerPubkey == expected)
            && (r.Ok? && after != db ==>
                  && r.value.version == n + 1
                  && EventsOf(after.events, org)
                     == history + [OwnerEvent(org, n + 1, Rotation, replacement, times.format(now))]
                  && after.owners - {org} == db.owners - {org})
            && (r.Ok? && after == db ==> r.value.version == n)
  {
    assert OrgInvariant(times, db, org);
    var history := EventsOf(db.events, org);
    var after := RotateOwner(times, db, org, expected, replacement, now).0;
    if org in db.owners {
      EventKeyInHistory(times, db.events, org, |history| - 1);
      AppendedEvent(db.events, OwnerEvent(org, |history| + 1, Rotation, replacement, times.format(now)), org);
    }
    if after != db {
      assert |after.events| == |db.events| + 1;
    }
  }

  /** Bootstrapping creates version 1 exactly when the organisation has no history;
      repeating it with the same key changes nothing and succeeds. */
  lemma BootstrapEffect(times: TimeFormat, db: Db, org: OrgId, key: Key, now: int)
    requires Invariant(times, db)
    ensures var history := EventsOf(db.events, org);
            var (after, r) := BootstrapOwner(times, db, org, key, now);
            && (r == Ok(Created) <==> history == [])
            && (r == Ok(Created) ==>
                  EventsOf(after.events, org) == [OwnerEvent(org, 1, Bootstrap, key, times.format(now))])
            && (r != Ok(Created) ==> after == db)
            && (r == Ok(AlreadyExists) <==>
                  history != [] && history[|history| - 1].ownerPubkey == key)
  {
    assert OrgInvariant(times, db, org);
    AppendedEvent(db.events, OwnerEvent(org, 1, Bootstrap, key, times.format(now)), org);
  }

  /** A record can always be read while the invariant holds, and it is the last event. */
  lemma GetOwnerEffect(times: TimeFormat, db: Db, org: OrgId)
    requires Invariant(times, db)
    ensures var history := EventsOf(db.events, org);
            GetOwner(times, db, org).Ok?
            && (GetOwner(times, db, org).value.None? <==> history == [])
            && (history != [] ==>
                  var r := GetOwner(times, db, org).value.value;
                  r.ownerPubkey == history[|history| - 1].ownerPubkey && r.version == |history|)
  {
    assert OrgInvariant(times, db, org);
  }

  /** Repeating a rotation that has just been committed, in any later database where
      the organisation has had no other event, adds nothing and returns the same version. */
  lemma RotateReplay(times: TimeFormat, db: Db, later: Db, org: OrgId, expected: Key,
                     replacement: Key, now: int, again: int)
    requires RoundTrips(times) && Invariant(times, db) && Invariant(times, later)
    requires var (after, r) := RotateOwner(times, db, org, expected, replacement, now);
             r.Ok? && EventsOf(later.events, org) == EventsOf(after.events, org)
    ensures var first := RotateOwner(times, db, org, expected, replacement, now).1;
            var (same, second) := RotateOwner(times, later, org, expected, replacement, again);
            same == later && second.Ok? && second.value.version == first.value.version
  {
    RotateEffect(times, db, org, expected, replacement, now);
    RotateEffect(times, later, org, expected, replacement, again);
  }

  /** The times of a record, as read: the first event's, and the last rotation's if there is one. */
  lemma GetOwnerTimes(times: TimeFormat, db: Db, org: OrgId)
    requires Invariant(times, db) && EventsOf(db.events, org) != []
    ensures var history := EventsOf(db.events, org);
            var record := GetOwner(times, db, org);
            && record.Ok? && record.value.Some?
            && var r := record.value.value;
               && r.orgId == org && Some(r.bootstrappedAt) == times.parse(history[0].occurredAt)
               && r.rotatedAt == if |history| == 1 then None else times.parse(history[|history| - 1].occurredAt)
  {
    assert OrgInvariant(times, db, org);
  }

  /** The record that a rotation returns: a new rotation carries the time it was made at, a replay the
      stored times; the bootstrap time is the first event's. */
  lemma RotateTimes(times: TimeFormat, db: Db, org: OrgId, expected: Key, replacement: Key, now: int)
    requires RoundTrips(times) && Invariant(times, db)
    requires RotateOwner(times, db, org, expected, replacement, now).1.Ok?
    ensures var history := EventsOf(db.events, org);
            var (after, r) := RotateOwner(times, db, org, expected, replacement, now);
            && history != [] && Some(r.value.bootstrappedAt) == times.parse(history[0].occurredAt)
            && r.value.rotatedAt == if after != db then Some(now) else times.parse(history[|history| - 1].occurredAt)
  {
    RotateEffect(times, db, org, expected, replacement, now);
    assert OrgInvariant(times, db, org);
    assert WellFormedHistory(times, EventsOf(db.events, org));
  }

  /** The refusals of a rotation, each with its own cause. */
  lemma RotateRefusals(times: TimeFormat, db: Db, org: OrgId, expected: Key, replacement: Key, now: int)
    requires RoundTrips(times) && Invariant(times, db)
    ensures var history := EventsOf(db.events, org);
            var n := |history|;
            var r := RotateOwner(times, db, org, expected, replacement, now).1;
            && (r == Err(NotBootstrapped) <==> n == 0)
            && (r == Err(ReplacementIsCurrent) <==>
                  n > 0 && history[n - 1].ownerPubkey == expected && expected == replacement)
            && (r == Err(NotPreviousOwner) <==>
                  && n > 0 && history[n - 1].ownerPubkey == replacement && expected != replacement
                  && (n == 1 || history[n - 2].ownerPubkey != expected))
            && (r == Err(NotCurrentOwner) <==>
                  && n > 0 && history[n - 1].ownerPubkey != expected
                  && (history[n - 1].ownerPubkey != replacement || expected == replacement))
  {
    assert OrgInvariant(times, db, org);
    EventKeyInHistory(times, db.events, org, |EventsOf(db.events, org)| - 1);
  }

  /** The store as an object: two tables updated in place. */
  class OwnerStore {
    const times: TimeFormat
    var owners: map<OrgId, OwnerRow>
    var events: seq<OwnerEvent>

    function State(): Db
      reads this
    {
      Db(owners, events)
    }

    constructor (times: TimeFormat)
      ensures State() == Db(map[], []) && this.times == times
    {
      this.times := times;
      owners, events := map[], [];
    }

    method Bootstrap(org: OrgId, key: Key, now: int) returns (r: Result<BootstrapOutcome, StoreError>)
      modifies this
      ensures (State(), r) == BootstrapOwner(times, old(State()), org, key, now)
      ensures RoundTrips(times) && Invariant(times, old(State())) ==> Invariant(times, State())
      ensures r.Err? ==> State() == old(State())
    {
      if RoundTrips(times) && Invariant(times, State()) {
        BootstrapKeepsInvariant(times, State(), org, key, now);
      }
      if org in owners {
        if owners[org].ownerPubkey == key {
          return Ok(AlreadyExists);
        }
        return Err(DifferentOwner);
      }
      var text := times.format(now);
      owners := owners[org := OwnerRow(key, 1, text, None)];
      events := events + [OwnerEvent(org, 1, EventKind.Bootstrap, key, text)];
      return Ok(Created);
    }

    method Get(org: OrgId) returns (r: Result<Option<OwnerRecord>, StoreError>)
      ensures r == GetOwner(times, State(), org)
    {
      if org !in owners {
        return Ok(None);
      }
      var record := ReadRecord(times, org, owners[org]);
      match record
      case Ok(value) => return Ok(Some(value));
      case Err(error) => return Err(error);
    }

    method Rotate(org: OrgId, expected: Key, replacement: Key, now: int)
      returns (r: Result<OwnerRecord, StoreError>)
      modifies this
      ensures (State(), r) == RotateOwner(times, old(State()), org, expected, replacement, now)
      ensures RoundTrips(times) && Invariant(times, old(State())) ==>
                Invariant(times, State()) && (r.Err? ==> State() == old(State()))
    {
      if RoundTrips(times) && Invariant(times, State()) {
        RotateKeepsInvariant(times, State(), org, expected, replacement, now);
        RotateEffect(times, State(), org, expected, replacement, now);
      }
      if org !in owners {
        return Err(NotBootstrapped);
      }
      var row := owners[org];
      if row.ownerPubkey == replacement && expected != replacement {
        var previous := EventKey(events, org, row.version - 1);
        if previous != Some(expected) {
          return Err(NotPreviousOwner);
        }
        r := ReadRecord(times, org, row);
        return;
      }
      if row.ownerPubkey != expected {
        return Err(NotCurrentOwner);
      }
      if replacement == expected {
        return Err(ReplacementIsCurrent);
      }
      var version, text := row.version + 1, times.format(now);
      owners := owners[org := row.(ownerPubkey := replacement, version := version, rotatedAt := Some(text))];
      events := events + [OwnerEvent(org, version, EventKind.Rotation, replacement, text)];
      if version < 0 {
        return Err(NegativeVersion);
      }
      var bootstrapped := times.parse(row.bootstrappedAt);
      if bootstrapped.None? {
        return Err(BadTimestamp);
      }
      return Ok(OwnerRecord(org, replacement, version, bootstrapped.value, Some(now)));
    }
  }
}
