/**
 * Fan-out of one message to a group of clients: the servers walk a client
 * map and push the message on every channel, possibly skipping one id.
 * Pushing never fails in this model (the servers ignore send errors, and
 * the channels are unbounded).
 */
module FanOut {
  import opened Messages

  /** The outbound queues of a group of clients, keyed by client id. */
  type Queues = map<ClientId, seq<Msg>>

  /** The queues after `m` is pushed once on every channel whose id is not in `skip`. */
  function Delivered(queues: Queues, skip: set<ClientId>, m: Msg): Queues
  {
    map c | c in queues :: if c in skip then queues[c] else queues[c] + [m]
  }

  /**
   * The send loop: visits the clients one at a time, in whatever order the
   * map yields them, and pushes `m` to each one not in `skip`.
   */
  method Deliver(queues: Queues, skip: set<ClientId>, m: Msg) returns (sent: Queues)
    ensures sent == Delivered(queues, skip, m)
  {
    sent := queues;
    var pending := queues.Keys;
    while pending != {}
      invariant pending <= queues.Keys
      invariant sent.Keys == queues.Keys
      invariant forall c :: c in queues ==>
        sent[c] == if c in pending || c in skip then queues[c] else queues[c] + [m]
      decreases pending
    {
      var c :| c in pending;
      if c !in skip {
        sent := sent[c := sent[c] + [m]];
      }
      pending := pending - {c};
    }
  }
}
