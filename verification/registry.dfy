/**
 * The shared state of the multi-room server: the room table and the room
 * watchers, behind one lock. Each method is one block the connection
 * handlers run while holding that lock, so each runs as a single step.
 */
module Registry {
  import opened Messages
  import opened FanOut
  import opened RoomTable
  import Census

  class RoomRegistry {
    /** Room id -> (client id -> outbound queue). */
    var rooms: Rooms
    /** Watcher id -> outbound queue of room-list updates. */
    var watchers: map<WatcherId, seq<Msg>>

    /** Every room is non-empty and within capacity. */
    ghost predicate Valid()
      reads this
    {
      Wellformed(rooms)
    }

    constructor ()
      ensures Valid()
      ensures rooms == map[] && watchers == map[]
    {
      rooms := map[];
      watchers := map[];
    }

    /**
     * A connection with fresh id `c` asks for `room`. When the room is full
     * nothing changes and the returned reply is what the joiner is sent
     * before its connection is closed.
     */
    method Join(room: RoomId, c: ClientId) returns (rejection: Option<Msg>)
      requires Valid() && IsFresh(rooms, c)
      modifies this
      ensures Valid()
      ensures JoinResult(rooms, rejection) == RoomTable.Join(old(rooms), room, c)
      ensures watchers == old(watchers)
    {
      var clients := ClientsOf(rooms, room);
      if |clients| >= MaxPlayers {
        rejection := Some(RoomFull(room));
        return;
      }
      clients := clients[c := []];
      var notified := Deliver(clients, {c}, JoinAccepted(room));
      JoinKeepsWellformed(rooms, room, c);
      rooms := rooms[room := notified];
      rejection := None;
    }

    /** A text frame received from a member of `room` goes to the whole room. */
    method Broadcast(room: RoomId, text: string)
      requires Valid()
      modifies this
      ensures Valid()
      ensures rooms == RoomTable.Broadcast(old(rooms), room, text)
      ensures watchers == old(watchers)
    {
      BroadcastKeepsWellformed(rooms, room, text);
      if room in rooms {
        var sent := Deliver(rooms[room], {}, Text(text));
        rooms := rooms[room := sent];
      }
    }

    /** Cleanup after `c`'s connection to `room` ends. */
    method Leave(room: RoomId, c: ClientId)
      requires Valid()
      modifies this
      ensures Valid()
      ensures rooms == RoomTable.Leave(old(rooms), room, c)
      ensures watchers == old(watchers)
    {
      LeaveKeepsWellformed(rooms, room, c);
      if room in rooms {
        var clients := rooms[room] - {c};
        var notified := Deliver(clients, {}, LeftRoom(c, room));
        if |clients| == 0 {
          rooms := rooms - {room};
        } else {
          rooms := rooms[room := notified];
        }
      }
    }

    /** The census of the current rooms, in the table's iteration order. */
    method Snapshot() returns (snapshot: seq<RoomInfo>)
      ensures Census.Enumerates(Census.RoomIds(snapshot), rooms.Keys)
      ensures snapshot == Census.Census(rooms, Census.RoomIds(snapshot))
    {
      var order := Census.Enumerate(rooms.Keys);
      snapshot := Census.Census(rooms, order);
      assert Census.RoomIds(snapshot) == order;
    }

    /** Adds watcher `w` with an empty update queue. */
    method RegisterWatcher(w: WatcherId)
      requires Valid()
      modifies this
      ensures watchers == old(watchers)[w := []]
      ensures Valid()
      ensures rooms == old(rooms)
    {
      watchers := watchers[w := []];
    }

    /** Drops watcher `w` when its connection ends. */
    method UnregisterWatcher(w: WatcherId)
      requires Valid()
      modifies this
      ensures watchers == old(watchers) - {w}
      ensures Valid()
      ensures rooms == old(rooms)
    {
      watchers := watchers - {w};
    }

    /**
     * A new watcher with fresh id `w` subscribes: it is handed the census,
     * and it is registered only if handing over that census succeeded
     * (`initialSent`). The census and the registration take the lock
     * separately.
     */
    method Subscribe(w: WatcherId, initialSent: bool) returns (snapshot: seq<RoomInfo>)
      requires w !in watchers
      requires Valid()
      modifies this
      ensures Census.Enumerates(Census.RoomIds(snapshot), rooms.Keys)
      ensures snapshot == Census.Census(rooms, Census.RoomIds(snapshot))
      ensures Valid()
      ensures rooms == old(rooms)
      ensures watchers == if initialSent then old(watchers)[w := []] else old(watchers)
    {
      snapshot := Snapshot();
      if !initialSent {
        return;
      }
      RegisterWatcher(w);
    }

    /**
     * A whole watcher connection: subscribe, then, once the connection
     * ends, remove the watcher again. Afterwards the watcher map and the
     * rooms are as they were.
     */
    method WatchUntilDisconnect(w: WatcherId, initialSent: bool) returns (snapshot: seq<RoomInfo>)
      requires w !in watchers
      requires Valid()
      modifies this
      ensures Census.Enumerates(Census.RoomIds(snapshot), rooms.Keys)
      ensures snapshot == Census.Census(rooms, Census.RoomIds(snapshot))
      ensures watchers == old(watchers)
      ensures Valid()
      ensures rooms == old(rooms)
    {
      snapshot := Subscribe(w, initialSent);
      if !initialSent {
        return;
      }
      UnregisterWatcher(w);
      RegisterThenUnregisterRestores(old(watchers), w);
    }
  }

  /** Registering a fresh watcher and then unregistering it restores the watcher map. */
  lemma RegisterThenUnregisterRestores(watchers: map<WatcherId, seq<Msg>>, w: WatcherId)
    requires w !in watchers
    ensures watchers[w := []] - {w} == watchers
  {
  }
}
