/**
 * The single-room server: one shared map from client id to outbound queue,
 * with no capacity limit. Each block the server runs under the map's lock is
 * one method of `Room`; leaving takes the lock twice (remove, then announce),
 * so it is two methods here.
 */
module SingleRoom {
  import opened Messages
  import opened FanOut

  /** The room after `c` is inserted with a fresh queue and everyone else is told. */
  function Joined(clients: Queues, c: ClientId): (r: Queues)
    ensures r.Keys == clients.Keys + {c}
    ensures r[c] == []
    ensures forall k :: k in clients && k != c ==> r[k] == clients[k] + [JoinedTheRoom(c)]
  {
    Delivered(clients[c := []], {c}, JoinedTheRoom(c))
  }

  /** The room after `sender`'s text is relayed: everyone but the sender gets it once. */
  function Relayed(clients: Queues, sender: ClientId, text: string): (r: Queues)
    ensures r.Keys == clients.Keys
    ensures sender in clients ==> r[sender] == clients[sender]
    ensures forall k :: k in clients && k != sender ==> r[k] == clients[k] + [Text(text)]
  {
    Delivered(clients, {sender}, Text(text))
  }

  /** The room after `c` is removed; nobody else's queue changes. */
  function Removed(clients: Queues, c: ClientId): (r: Queues)
    ensures c !in r
    ensures r.Keys == clients.Keys - {c}
    ensures forall k :: k in r ==> r[k] == clients[k]
  {
    clients - {c}
  }

  /** The room after the leave notice for `c` is pushed to every client present. */
  function AnnouncedLeft(clients: Queues, c: ClientId): (r: Queues)
    ensures r.Keys == clients.Keys
    ensures forall k :: k in clients ==> r[k] == clients[k] + [LeftTheRoom(c)]
  {
    Delivered(clients, {}, LeftTheRoom(c))
  }

  /** Joining a fresh id always succeeds and grows the room by exactly one client. */
  lemma JoinGrowsByOne(clients: Queues, c: ClientId)
    requires c !in clients
    ensures |Joined(clients, c)| == |clients| + 1
  {
    var r := Joined(clients, c);
    assert r.Keys == clients.Keys + {c};
    assert |r.Keys| == |clients.Keys| + 1;
  }

  /**
   * Leaving run without interference: the leaver is gone, nobody else's
   * membership changes, and every remaining client gets exactly one leave
   * notice while the leaver gets none.
   */
  lemma LeaveNotifiesEachRemainingOnce(clients: Queues, c: ClientId)
    ensures var r := AnnouncedLeft(Removed(clients, c), c);
      && c !in r
      && r.Keys == clients.Keys - {c}
      && forall k :: k in r ==> r[k] == clients[k] + [LeftTheRoom(c)]
  {
  }

  /**
   * Because leaving takes the lock twice, a client that joins between the
   * removal and the announcement is told that `c` left although the two were
   * never in the room together.
   */
  lemma InterleavedJoinSeesForeignLeave(clients: Queues, c: ClientId, d: ClientId)
    requires c in clients && d !in clients
    ensures var r := AnnouncedLeft(Joined(Removed(clients, c), d), c);
      && c !in r
      && r[d] == [LeftTheRoom(c)]
  {
    var removed := Removed(clients, c);
    assert d !in removed;
    var joined := Joined(removed, d);
    assert joined[d] == [];
  }

  /** Joining a fresh id and then leaving restores the room's membership. */
  lemma JoinThenLeaveRestoresMembers(clients: Queues, c: ClientId)
    requires c !in clients
    ensures AnnouncedLeft(Removed(Joined(clients, c), c), c).Keys == clients.Keys
  {
  }

  /** The room shared by every connection of the single-room server. */
  class Room {
    /** Each connected client's outbound queue. */
    var clients: Queues

    constructor ()
      ensures clients == map[]
    {
      clients := map[];
    }

    /** A new connection with fresh id `c` joins; the others are notified. */
    method Join(c: ClientId)
      requires c !in clients
      modifies this
      ensures clients == Joined(old(clients), c)
    {
      clients := clients[c := []];
      var notified := Deliver(clients, {c}, JoinedTheRoom(c));
      clients := notified;
    }

    /** A text frame from `sender` is relayed to every other client. */
    method Relay(sender: ClientId, text: string)
      modifies this
      ensures clients == Relayed(old(clients), sender, text)
    {
      var relayed := Deliver(clients, {sender}, Text(text));
      clients := relayed;
    }

    /** First lock of a disconnect: drop the leaver's entry. */
    method Remove(c: ClientId)
      modifies this
      ensures clients == Removed(old(clients), c)
    {
      clients := clients - {c};
    }

    /** Second lock of a disconnect: tell everyone still present that `c` left. */
    method AnnounceLeft(c: ClientId)
      modifies this
      ensures clients == AnnouncedLeft(old(clients), c)
    {
      var announced := Deliver(clients, {}, LeftTheRoom(c));
      clients := announced;
    }

    /** A disconnect with no other operation between its two lock acquisitions. */
    method Leave(c: ClientId)
      modifies this
      ensures clients == AnnouncedLeft(Removed(old(clients), c), c)
    {
      Remove(c);
      AnnounceLeft(c);
    }
  }
}
