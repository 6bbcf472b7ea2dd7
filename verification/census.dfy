/**
 * The room census a watcher receives: one `RoomInfo` per room, in the order
 * the room table's iterator yields the rooms. That order is the hash map's
 * and is not specified, so it is a parameter here (`order`).
 */
module Census {
  import opened Messages
  import opened RoomTable

  /** No element of `s` occurs twice. */
  predicate Distinct<T(==)>(s: seq<T>)
  {
    forall i, j :: 0 <= i < j < |s| ==> s[i] != s[j]
  }

  /** `order` lists every element of `keys` exactly once and nothing else. */
  predicate Enumerates<T(==)>(order: seq<T>, keys: set<T>)
  {
    && Distinct(order)
    && (forall i :: 0 <= i < |order| ==> order[i] in keys)
    && (forall k :: k in keys ==> k in order)
  }

  /** The room ids a census names, in its order. */
  function RoomIds(snapshot: seq<RoomInfo>): (ids: seq<RoomId>)
    ensures |ids| == |snapshot|
    ensures forall i :: 0 <= i < |snapshot| ==> ids[i] == snapshot[i].roomId
  {
    if snapshot == [] then [] else [snapshot[0].roomId] + RoomIds(snapshot[1..])
  }

  /**
   * The census of `rooms` taken in iteration order `order`: entry `i` names
   * room `order[i]` and counts its clients.
   */
  function Census(rooms: Rooms, order: seq<RoomId>): (snapshot: seq<RoomInfo>)
    requires forall i :: 0 <= i < |order| ==> order[i] in rooms
    ensures |snapshot| == |order|
    ensures forall i :: 0 <= i < |order| ==>
      snapshot[i].roomId == order[i] && snapshot[i].clientCount == |rooms[order[i]]|
  {
    if order == [] then []
    else [RoomInfo(order[0], |rooms[order[0]]|)] + Census(rooms, order[1..])
  }

  /** A sequence without repeats that enumerates a set is as long as the set is large. */
  lemma {:induction false} EnumerationLength<T>(order: seq<T>, keys: set<T>)
    requires Enumerates(order, keys)
    ensures |order| == |keys|
  {
    if order != [] {
      var rest := keys - {order[0]};
      forall k | k in rest
        ensures k in order[1..]
      {
        var i :| 0 <= i < |order| && order[i] == k;
        assert i != 0;
      }
      assert Enumerates(order[1..], rest);
      EnumerationLength(order[1..], rest);
    } else {
      assert forall k :: k in keys ==> k in order;
      assert keys == {};
    }
  }

  /**
   * Taken in an order that enumerates the table, the census has exactly one
   * entry per room, and each entry's count is that room's number of clients.
   */
  lemma OneEntryPerRoom(rooms: Rooms, order: seq<RoomId>)
    requires Enumerates(order, rooms.Keys)
    ensures var snapshot := Census(rooms, order);
      && |snapshot| == |rooms|
      && Enumerates(RoomIds(snapshot), rooms.Keys)
      && forall room :: room in rooms ==>
           exists i :: 0 <= i < |snapshot| && snapshot[i] == RoomInfo(room, |rooms[room]|)
  {
    var snapshot := Census(rooms, order);
    EnumerationLength(order, rooms.Keys);
    assert |rooms| == |rooms.Keys|;
    assert RoomIds(snapshot) == order;
    forall room | room in rooms
      ensures exists i :: 0 <= i < |snapshot| && snapshot[i] == RoomInfo(room, |rooms[room]|)
    {
      var i :| 0 <= i < |order| && order[i] == room;
      assert snapshot[i] == RoomInfo(room, |rooms[room]|);
    }
  }

  /** In a well-formed table every census count lies between 1 and `MaxPlayers`. */
  lemma CountsWithinCapacity(rooms: Rooms, order: seq<RoomId>)
    requires Wellformed(rooms)
    requires forall i :: 0 <= i < |order| ==> order[i] in rooms
    ensures forall e :: e in Census(rooms, order) ==> 1 <= e.clientCount <= MaxPlayers
  {
  }

  /**
   * The iteration of a key set: takes the keys out one at a time, in an
   * order the model leaves open, until none is left.
   */
  method Enumerate<T>(keys: set<T>) returns (order: seq<T>)
    ensures Enumerates(order, keys)
  {
    order := [];
    var pending := keys;
    while pending != {}
      invariant pending <= keys
      invariant Distinct(order)
      invariant forall i :: 0 <= i < |order| ==> order[i] in keys && order[i] !in pending
      invariant forall k :: k in keys ==> k in pending || k in order
      decreases pending
    {
      var k :| k in pending;
      order := order + [k];
      pending := pending - {k};
    }
  }
}
