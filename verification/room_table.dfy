/**
 * The multi-room table as a value: room id -> (client id -> outbound queue).
 * Each function is what one locked block of the multi-room connection
 * handler does to the table; the `Registry` class runs them in place.
 */
module RoomTable {
  import opened Messages
  import opened FanOut

  type Rooms = map<RoomId, Queues>

  /** The most clients a room admits. */
  const MaxPlayers: nat := 2

  /** Every room in the table has at least one and at most `MaxPlayers` clients. */
  predicate Wellformed(rooms: Rooms)
  {
    forall r :: r in rooms ==> 0 < |rooms[r]| <= MaxPlayers
  }

  /** `c` is in no room (what a freshly minted UUID guarantees). */
  predicate IsFresh(rooms: Rooms, c: ClientId)
  {
    forall r :: r in rooms ==> c !in rooms[r]
  }

  /** Who is in which room, forgetting the queues. */
  function Members(rooms: Rooms): map<RoomId, set<ClientId>>
  {
    map r | r in rooms :: rooms[r].Keys
  }

  /** The reply to a joiner turned away from `room`. */
  function RoomFull(room: RoomId): Msg
  {
    JoinRoomResponse(false, Some(room), Some(RoomFullMessage))
  }

  /** The notice a member of `room` gets when someone else is admitted. */
  function JoinAccepted(room: RoomId): Msg
  {
    JoinRoomResponse(true, Some(room), None)
  }

  /**
   * The table after a join attempt, and the reply sent straight back on the
   * joiner's socket when it is turned away (nothing is queued for it then).
   */
  datatype JoinResult = JoinResult(rooms: Rooms, rejection: Option<Msg>)

  /** The clients of `room`, which the join creates empty when the room is absent. */
  function ClientsOf(rooms: Rooms, room: RoomId): Queues
  {
    if room in rooms then rooms[room] else map[]
  }

  /**
   * The table after `c` is admitted to `room`: `c` is added with an empty
   * queue and every other member is sent one success response; no other room
   * changes.
   */
  function Admit(rooms: Rooms, room: RoomId, c: ClientId): (r: Rooms)
    ensures r.Keys == rooms.Keys + {room}
    ensures forall other :: other in rooms && other != room ==> r[other] == rooms[other]
    ensures r[room].Keys == ClientsOf(rooms, room).Keys + {c}
    ensures r[room][c] == []
    ensures forall k :: k in ClientsOf(rooms, room) && k != c ==>
      r[room][k] == ClientsOf(rooms, room)[k] + [JoinAccepted(room)]
  {
    rooms[room := Delivered(ClientsOf(rooms, room)[c := []], {c}, JoinAccepted(room))]
  }

  /**
   * `c` asks to join `room`. A room that already holds `MaxPlayers` clients
   * turns the joiner away with one "room is full" reply and the table is left
   * as it was; a room created for the attempt is never full.
   */
  function Join(rooms: Rooms, room: RoomId, c: ClientId): (r: JoinResult)
    ensures r.rejection.Some? <==> room in rooms && |rooms[room]| >= MaxPlayers
    ensures r.rejection.Some? ==> r.rooms == rooms && r.rejection.value == RoomFull(room)
    ensures r.rejection.None? ==> r.rooms == Admit(rooms, room, c)
  {
    if |ClientsOf(rooms, room)| >= MaxPlayers then
      JoinResult(rooms, Some(RoomFull(room)))
    else
      JoinResult(Admit(rooms, room, c), None)
  }

  /**
   * A text frame sent by a member of `room`: every member of that room, the
   * sender included, gets it once. An absent room changes nothing.
   */
  function Broadcast(rooms: Rooms, room: RoomId, text: string): (r: Rooms)
    ensures r.Keys == rooms.Keys
    ensures forall other :: other in rooms && other != room ==> r[other] == rooms[other]
    ensures room in rooms ==>
      && r[room].Keys == rooms[room].Keys
      && forall k :: k in rooms[room] ==> r[room][k] == rooms[room][k] + [Text(text)]
    ensures room !in rooms ==> r == rooms
  {
    if room in rooms then
      rooms[room := Delivered(rooms[room], {}, Text(text))]
    else
      rooms
  }

  /**
   * `c` disconnects from `room`: it is removed, each remaining member gets one
   * leave notice, and the room is deleted once nobody is left. An absent room
   * changes nothing.
   */
  function Leave(rooms: Rooms, room: RoomId, c: ClientId): (r: Rooms)
    ensures room !in rooms ==> r == rooms
    ensures room in rooms ==> (room in r <==> rooms[room].Keys - {c} != {})
    ensures r.Keys - {room} == rooms.Keys - {room}
    ensures forall other :: other in rooms && other != room ==> other in r && r[other] == rooms[other]
    ensures room in r ==>
      && r[room].Keys == rooms[room].Keys - {c}
      && forall k :: k in r[room] ==> r[room][k] == rooms[room][k] + [LeftRoom(c, room)]
  {
    if room !in rooms then
      rooms
    else
      var rest := rooms[room] - {c};
      var notified := Delivered(rest, {}, LeftRoom(c, room));
      if |rest| == 0 then
        rooms - {room}
      else
        rooms[room := notified]
  }

  /** Keys decide a group's size: fan-out never changes how many clients a group has. */
  lemma SameKeysSameSize(a: Queues, b: Queues)
    requires a.Keys == b.Keys
    ensures |a| == |b|
  {
    assert |a| == |a.Keys| && |b| == |b.Keys|;
  }

  /** An admitted join keeps every room non-empty and within capacity. */
  lemma JoinKeepsWellformed(rooms: Rooms, room: RoomId, c: ClientId)
    requires Wellformed(rooms)
    ensures Wellformed(Join(rooms, room, c).rooms)
  {
    var clients := ClientsOf(rooms, room);
    if |clients| < MaxPlayers {
      var r := Admit(rooms, room, c);
      var admitted := clients[c := []];
      assert |admitted| <= |clients| + 1 && c in admitted;
      SameKeysSameSize(r[room], admitted);
      forall x | x in r
        ensures 0 < |r[x]| <= MaxPlayers
      {
        if x != room {
          assert r[x] == rooms[x];
        }
      }
    }
  }

  /** A broadcast changes no room's membership, so the table stays well formed. */
  lemma BroadcastKeepsWellformed(rooms: Rooms, room: RoomId, text: string)
    requires Wellformed(rooms)
    ensures Wellformed(Broadcast(rooms, room, text))
  {
    if room in rooms {
      SameKeysSameSize(Broadcast(rooms, room, text)[room], rooms[room]);
    }
  }

  /**
   * A leave keeps every room within capacity and deletes the room it empties,
   * so no empty room is ever left in the table.
   */
  lemma LeaveKeepsWellformed(rooms: Rooms, room: RoomId, c: ClientId)
    requires Wellformed(rooms)
    ensures Wellformed(Leave(rooms, room, c))
  {
    var r := Leave(rooms, room, c);
    if room in r {
      var rest := rooms[room] - {c};
      assert r[room].Keys == rest.Keys;
      SameKeysSameSize(r[room], rest);
      assert r[room].Keys != {};
      assert |rest| <= |rooms[room]|;
    }
  }

  /**
   * An admitted join of a fresh client followed by its leave restores who is
   * in which room: a room created by the join is deleted again, and a room
   * that existed keeps its other members.
   */
  lemma JoinThenLeaveRestoresMembers(rooms: Rooms, room: RoomId, c: ClientId)
    requires Wellformed(rooms) && IsFresh(rooms, c)
    requires Join(rooms, room, c).rejection.None?
    ensures Members(Leave(Join(rooms, room, c).rooms, room, c)) == Members(rooms)
  {
    assert Join(rooms, room, c).rooms == Admit(rooms, room, c);
    if room in rooms {
      assert |rooms[room]| > 0 && c !in rooms[room];
      assert rooms[room] != map[];
      LeaveAfterAdmitToExisting(rooms, room, c);
    } else {
      LeaveAfterAdmitToNew(rooms, room, c);
    }
    SameMembers(Leave(Admit(rooms, room, c), room, c), rooms);
  }

  /** Two tables with the same rooms, each with the same client ids, have the same members. */
  lemma SameMembers(a: Rooms, b: Rooms)
    requires a.Keys == b.Keys
    requires forall r :: r in a ==> a[r].Keys == b[r].Keys
    ensures Members(a) == Members(b)
  {
    assert Members(a).Keys == Members(b).Keys;
  }

  /** Admitting `c` to an existing room and removing it again keeps the room with its old members. */
  lemma LeaveAfterAdmitToExisting(rooms: Rooms, room: RoomId, c: ClientId)
    requires room in rooms && rooms[room] != map[] && c !in rooms[room]
    ensures var left := Leave(Admit(rooms, room, c), room, c);
      && left.Keys == rooms.Keys
      && forall r :: r in rooms ==> left[r].Keys == rooms[r].Keys
  {
    var admitted := Admit(rooms, room, c);
    var k :| k in rooms[room];
    assert k in admitted[room].Keys - {c};
  }

  /** Admitting `c` to a room that did not exist and removing it again deletes the room. */
  lemma LeaveAfterAdmitToNew(rooms: Rooms, room: RoomId, c: ClientId)
    requires room !in rooms
    ensures var left := Leave(Admit(rooms, room, c), room, c);
      && left.Keys == rooms.Keys
      && forall r :: r in rooms ==> left[r].Keys == rooms[r].Keys
  {
    var admitted := Admit(rooms, room, c);
    assert admitted[room].Keys == {c};
  }
}
