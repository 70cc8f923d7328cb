/** The relay store: two maps from room id to the room's message log and to its
    participant list, the transitions each write makes on them, and the class
    whose methods are the API handlers' bodies. */
module RelayStore {
  import opened RelayTypes
  import opened Text
  import opened MessageLog
  import opened KeyDirectory

  /** `messagesByRoom.get(rid) || []` */
  function LogOf(messages: map<string, seq<Message>>, rid: string): seq<Message> {
    if rid in messages then messages[rid] else []
  }

  /** `participantsByRoom.get(rid) || []` */
  function RosterOf(participants: map<string, seq<Entry>>, rid: string): seq<Entry> {
    if rid in participants then participants[rid] else []
  }

  /** The message map after `m` is posted to room `rid`: the room exists and
      its log gained `m` at the end; every other room is as it was. */
  function Posted(messages: map<string, seq<Message>>, rid: string, m: Message): (r: map<string, seq<Message>>)
    ensures r.Keys == messages.Keys + {rid}
    ensures LogOf(r, rid) == LogOf(messages, rid) + [m]
    ensures forall other :: other != rid ==> LogOf(r, other) == LogOf(messages, other)
    ensures forall other :: other in messages && other != rid ==> r[other] == messages[other]
  {
    messages[rid := LogOf(messages, rid) + [m]]
  }

  /** The participant map after an upsert of trimmed alias `a` into room `rid`:
      the room exists (even when nothing was inserted) and holds the upserted
      list (whose keys `UpsertSetsKey` and `UpsertKeepsOtherKeys` describe); every
      other room is as it was. */
  function Enrolled(participants: map<string, seq<Entry>>, rid: string, a: string, key: Option<string>)
    : (r: map<string, seq<Entry>>)
    ensures r.Keys == participants.Keys + {rid}
    ensures r[rid] == Upsert(RosterOf(participants, rid), a, key)
    ensures forall other :: other in participants && other != rid ==> r[other] == participants[other]
    ensures rid !in participants && a == "" ==> r[rid] == []
  {
    participants[rid := Upsert(RosterOf(participants, rid), a, key)]
  }

  /** An upsert keeps every room's list well formed. */
  lemma EnrolledKeepsRostersWellFormed(participants: map<string, seq<Entry>>, rid: string, a: string, key: Option<string>)
    requires forall room :: room in participants ==> WellFormedRoster(participants[room])
    ensures var r := Enrolled(participants, rid, a, key);
      forall room :: room in r ==> WellFormedRoster(r[room])
  {
    UpsertKeepsRosterWellFormed(RosterOf(participants, rid), a, key);
  }

  /** An alias of whitespace only passes validation and trims to "": the room's
      list is created if absent, and nothing is inserted into it. */
  lemma {:induction false} WhitespaceAliasInsertsNothing(participants: map<string, seq<Entry>>, rid: string,
                                                         alias: string, key: Option<string>)
    requires forall i :: 0 <= i < |alias| ==> IsSpace(alias[i])
    requires KeyOf(RosterOf(participants, rid), "").None?
    ensures Enrolled(participants, rid, Trim(alias), key) == participants[rid := RosterOf(participants, rid)]
  {
    TrimEmptyIff(alias);
    EmptyAliasNotInserted(RosterOf(participants, rid), key);
  }

  /** The room ids a wipe names. */
  function RoomSet(ids: seq<string>): set<string> {
    set i | i in ids
  }

  /** A map after a wipe of `ids`: the named rooms are gone, the rest untouched. */
  function Wiped<V>(rooms: map<string, V>, ids: seq<string>): (r: map<string, V>)
    ensures forall rid :: rid in ids ==> rid !in r
    ensures forall rid :: rid !in ids ==> (rid in r <==> rid in rooms)
    ensures forall rid :: rid in r ==> r[rid] == rooms[rid]
  {
    rooms - RoomSet(ids)
  }

  /** Reading a room after a post shows what it showed before, followed by the
      new record while that record is live. */
  lemma {:induction false} PostThenRead(messages: map<string, seq<Message>>, rid: string, m: Message, now: int)
    ensures ActiveOnly(LogOf(Posted(messages, rid, m), rid), now)
         == ActiveOnly(LogOf(messages, rid), now) + (if Live(m, now) then [m] else [])
  {
    ActiveOnlyAppend(LogOf(messages, rid), [m], now);
  }

  /** A message posted at `t0` with a one-second TTL is shown 500 ms later and
      no longer shown 1500 ms later; the room otherwise shows what it did. */
  lemma {:induction false} OneSecondTtl(messages: map<string, seq<Message>>, input: MessageInput, t0: int, clock: string)
    requires !Blank(input.roomId) && input.encrypted.Some? && input.expiresIn == Some(1.0)
    ensures var rid, m := input.roomId.value, MakeRecord(input, t0, clock);
      ActiveOnly(LogOf(Posted(messages, rid, m), rid), t0 + 500)
        == ActiveOnly(LogOf(messages, rid), t0 + 500) + [m]
    ensures var rid, m := input.roomId.value, MakeRecord(input, t0, clock);
      ActiveOnly(LogOf(Posted(messages, rid, m), rid), t0 + 1500)
        == ActiveOnly(LogOf(messages, rid), t0 + 1500)
  {
    var rid, m := input.roomId.value, MakeRecord(input, t0, clock);
    assert m.expiresAt == Some(t0 as real + 1000.0);
    assert Live(m, t0 + 500) && !Live(m, t0 + 1500);
    PostThenRead(messages, rid, m, t0 + 500);
    PostThenRead(messages, rid, m, t0 + 1500);
  }

  /** A message posted without a positive TTL is shown at every later read. */
  lemma {:induction false} NoTtlNeverExpires(messages: map<string, seq<Message>>, input: MessageInput, t0: int, clock: string, now: int)
    requires !Blank(input.roomId) && input.encrypted.Some?
    requires input.expiresIn.None? || input.expiresIn.value <= 0.0
    ensures var rid, m := input.roomId.value, MakeRecord(input, t0, clock);
      ActiveOnly(LogOf(Posted(messages, rid, m), rid), now)
        == ActiveOnly(LogOf(messages, rid), now) + [m]
  {
    PostThenRead(messages, input.roomId.value, MakeRecord(input, t0, clock), now);
  }

  /** After a wipe, every named room reads as empty on both endpoints. */
  lemma {:induction false} WipeThenRead(messages: map<string, seq<Message>>, participants: map<string, seq<Entry>>,
                                        ids: seq<string>, rid: string, now: int)
    requires rid in ids
    ensures ActiveOnly(LogOf(Wiped(messages, ids), rid), now) == []
    ensures Listing(RosterOf(Wiped(participants, ids), rid)) == []
  {
    assert LogOf(Wiped(messages, ids), rid) == [];
    assert RosterOf(Wiped(participants, ids), rid) == [];
  }

  /** The process-wide state of the relay: `messagesByRoom` and
      `participantsByRoom`. */
  class Store {
    var messages: map<string, seq<Message>>
    var participants: map<string, seq<Entry>>

    /** Each room holds at most one record per alias, and none with the empty
        alias. */
    ghost predicate Valid()
      reads this
    {
      forall rid :: rid in participants ==> WellFormedRoster(participants[rid])
    }

    /** The store is empty at process start. */
    constructor ()
      ensures Valid()
      ensures messages == map[] && participants == map[]
    {
      messages := map[];
      participants := map[];
    }

    /** `POST /api/messages` at instant `now`; `clock` is the ISO text of `now`. */
    method PostMessage(input: MessageInput, now: int, clock: string) returns (r: Response<()>)
      requires Valid()
      modifies this
      ensures Valid()
      ensures r.ValidationError? <==> Blank(input.roomId) || input.encrypted.None?
      ensures r.ValidationError? ==> r.msg == MessageFieldsRequired
      ensures r.ValidationError? ==> messages == old(messages) && participants == old(participants)
      ensures r.Ok? ==> messages == Posted(old(messages), input.roomId.value, MakeRecord(input, now, clock))
      ensures participants == old(participants)
    {
      if Blank(input.roomId) || input.encrypted.None? {
        return ValidationError(MessageFieldsRequired);
      }
      var rid := input.roomId.value;
      if rid !in messages {
        messages := messages[rid := []];
      }
      messages := messages[rid := messages[rid] + [MakeRecord(input, now, clock)]];
      r := Ok(());
    }

    /** `GET /api/messages?roomId=…` at instant `now`: the room's live records in
        append order, an empty list for an unknown room. */
    function GetMessages(roomId: Option<string>, now: int): (r: Response<seq<Message>>)
      reads this
      ensures r.ValidationError? <==> Blank(roomId)
      ensures r.ValidationError? ==> r.msg == RoomIdRequired
      ensures r.Ok? ==> r.value == ActiveOnly(LogOf(messages, roomId.value), now)
      ensures r.Ok? ==> IsSubsequence(r.value, LogOf(messages, roomId.value))
      ensures r.Ok? ==> forall m :: m in r.value <==> m in LogOf(messages, roomId.value) && Live(m, now)
      ensures r.Ok? && roomId.value !in messages ==> r.value == []
    {
      if Blank(roomId) then ValidationError(RoomIdRequired)
      else Ok(ActiveOnly(LogOf(messages, roomId.value), now))
    }

    /** `POST /api/participants`: upsert of the trimmed alias into the room. */
    method PostParticipant(roomId: Option<string>, alias: Option<string>, publicKey: Option<string>)
      returns (r: Response<()>)
      requires Valid()
      modifies this
      ensures Valid()
      ensures r.ValidationError? <==> Blank(roomId) || Blank(alias)
      ensures r.ValidationError? ==> r.msg == AliasFieldsRequired
      ensures r.ValidationError? ==> participants == old(participants)
      ensures r.Ok? ==> participants == Enrolled(old(participants), roomId.value, Trim(alias.value), publicKey)
      ensures r.Ok? && (forall i :: 0 <= i < |alias.value| ==> IsSpace(alias.value[i])) ==>
        participants == old(participants)[roomId.value := RosterOf(old(participants), roomId.value)]
      ensures messages == old(messages)
    {
      if Blank(roomId) || Blank(alias) {
        return ValidationError(AliasFieldsRequired);
      }
      if forall i :: 0 <= i < |alias.value| ==> IsSpace(alias.value[i]) {
        WhitespaceAliasInsertsNothing(participants, roomId.value, alias.value, publicKey);
      }
      EnrolledKeepsRostersWellFormed(participants, roomId.value, Trim(alias.value), publicKey);
      Enroll(roomId.value, Trim(alias.value), publicKey);
      r := Ok(());
    }

    /** The upsert itself, for an already trimmed alias `a`: creates the room's
        list if absent, then updates the matching record's key in place or
        appends a new record. */
    method Enroll(rid: string, a: string, publicKey: Option<string>)
      modifies this
      ensures participants == Enrolled(old(participants), rid, a, publicKey)
      ensures messages == old(messages)
    {
      ghost var before := RosterOf(participants, rid);
      ghost var updated := Upsert(before, a, publicKey);
      ghost var target := Enrolled(participants, rid, a, publicKey);
      if rid !in participants {
        participants := participants[rid := []];
      }
      var list := participants[rid];
      assert list == before;
      match FindAlias(list, a) {
        case Some(i) =>
          list := list[i := Participant(a, publicKey.GetOr(list[i].publicKey))];
        case None =>
          if a != "" {
            list := list + [Participant(a, publicKey.GetOr(""))];
          }
      }
      assert list == updated;
      participants := participants[rid := list];
      assert participants == target;
    }

    /** `GET /api/participants?roomId=…`: the room's list, legacy bare names
        normalised at read time; an empty list for an unknown room. */
    function GetParticipants(roomId: Option<string>): (r: Response<seq<Shown>>)
      reads this
      ensures r.ValidationError? <==> Blank(roomId)
      ensures r.ValidationError? ==> r.msg == RoomIdRequired
      ensures r.Ok? ==> r.value == Listing(RosterOf(participants, roomId.value))
      ensures r.Ok? ==> |r.value| == |RosterOf(participants, roomId.value)|
      ensures r.Ok? && roomId.value !in participants ==> r.value == []
    {
      if Blank(roomId) then ValidationError(RoomIdRequired)
      else Ok(Listing(RosterOf(participants, roomId.value)))
    }

    /** `POST /api/wipe`: deletes both maps' entries for each listed room; a
        body whose `roomIds` is not an array (None) wipes nothing. */
    method Wipe(roomIds: Option<seq<string>>) returns (r: Response<()>)
      requires Valid()
      modifies this
      ensures Valid()
      ensures r == Ok(())
      ensures messages == Wiped(old(messages), roomIds.GetOr([]))
      ensures participants == Wiped(old(participants), roomIds.GetOr([]))
    {
      var ids := roomIds.GetOr([]);
      for i := 0 to |ids|
        invariant messages == old(messages) - RoomSet(ids[..i])
        invariant participants == old(participants) - RoomSet(ids[..i])
      {
        assert RoomSet(ids[..i + 1]) == RoomSet(ids[..i]) + {ids[i]} by {
          assert ids[..i + 1] == ids[..i] + [ids[i]];
        }
        messages := messages - {ids[i]};
        participants := participants - {ids[i]};
      }
      assert ids[..|ids|] == ids;
      r := Ok(());
    }
  }
}
