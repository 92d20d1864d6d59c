/**
 * The shared registry of connected users (`ChatState` in `src/lib.rs`):
 * a finite map from username to the sending half of that user's outbound
 * channel.
 *
 * A channel's sending half is modelled by its state: whether the receiving
 * half is still alive (`open`) and the FIFO queue of payloads sent into it
 * and not yet received. Because the queues live in the map's values,
 * `Broadcast` reassigns `peers` where the source only sends into channels.
 */
module Registry {
  import opened Wrappers
  import Protocol

  /** An `mpsc::UnboundedSender<String>`, seen as the channel it feeds. */
  datatype Sink = Sink(open: bool, queue: seq<string>) {
    /** `let _ = tx.send(payload)`: queued while the receiver lives, dropped without error otherwise. */
    function Send(payload: string): Sink {
      if open then Sink(open, queue + [payload]) else this
    }
  }

  /** A freshly created `mpsc::unbounded_channel()`. */
  function NewSink(): Sink {
    Sink(true, [])
  }

  datatype JoinError = UsernameTaken(name: string)

  type Peers = map<string, Sink>

  /**
   * The registry after `join(username, tx)`: it fails exactly when the
   * name is already held, and otherwise adds that one entry.
   */
  function AfterJoin(peers: Peers, username: string, tx: Sink): (r: Result<Peers, JoinError>)
    ensures r.Failure? <==> username in peers
    ensures r.Failure? ==> r.error == UsernameTaken(username)
    ensures r.Success? ==> r.value.Keys == peers.Keys + {username} && r.value[username] == tx
    ensures r.Success? ==> forall v :: v in peers ==> r.value[v] == peers[v]
  {
    if username in peers then Failure(UsernameTaken(username)) else Success(peers[username := tx])
  }

  /** The registry after `leave(username)`: that name is gone, every other entry is untouched. */
  function AfterLeave(peers: Peers, username: string): (r: Peers)
    ensures r.Keys == peers.Keys - {username}
    ensures forall v :: v in r ==> r[v] == peers[v]
  {
    peers - {username}
  }

  /**
   * The registry after `broadcast(from, msg)`: the set of names does not
   * change, every open sink other than the sender's receives exactly one
   * `FROM` payload at the back of its queue, and nothing else changes.
   */
  function AfterBroadcast(peers: Peers, from: string, msg: string): (r: Peers)
    ensures r.Keys == peers.Keys
    ensures forall v :: v in peers ==> r[v].open == peers[v].open
    ensures forall v :: v in peers && (v == from || !peers[v].open) ==> r[v] == peers[v]
    ensures forall v :: v in peers && v != from && peers[v].open ==>
              r[v].queue == peers[v].queue + [Protocol.FromLine(from, msg)]
  {
    var payload := Protocol.FromLine(from, msg);
    map v | v in peers :: if v == from then peers[v] else peers[v].Send(payload)
  }

  /** A second join under a held name fails and changes nothing. */
  lemma JoinHeldNameFails(peers: Peers, username: string, tx: Sink, tx': Sink)
    requires AfterJoin(peers, username, tx).Success?
    ensures AfterJoin(AfterJoin(peers, username, tx).value, username, tx') == Failure(UsernameTaken(username))
  {
  }

  /** Leaving frees the name: a join under it after a leave always succeeds. */
  lemma LeaveThenJoin(peers: Peers, username: string, tx: Sink)
    ensures AfterJoin(AfterLeave(peers, username), username, tx) == Success(AfterLeave(peers, username)[username := tx])
  {
  }

  /** Leaving twice is leaving once. */
  lemma LeaveIdempotent(peers: Peers, username: string)
    ensures AfterLeave(AfterLeave(peers, username), username) == AfterLeave(peers, username)
  {
  }

  /** Two broadcasts in a row reach each open peer in the order they were made. */
  lemma BroadcastsQueueInOrder(peers: Peers, from: string, m1: string, m2: string, v: string)
    requires v in peers && v != from && peers[v].open
    ensures AfterBroadcast(AfterBroadcast(peers, from, m1), from, m2)[v].queue
            == peers[v].queue + [Protocol.FromLine(from, m1), Protocol.FromLine(from, m2)]
  {
  }

  class ChatState {
    /** username -> sender to that user */
    var peers: Peers

    /** `ChatState::new`: no one is connected. */
    constructor ()
      ensures peers == map[]
    {
      peers := map[];
    }

    /** `ChatState::join`: check for the name and insert it only if absent. */
    method Join(username: string, tx: Sink) returns (r: Result<(), JoinError>)
      modifies this
      ensures username in old(peers) ==> r == Failure(UsernameTaken(username)) && peers == old(peers)
      ensures username !in old(peers) ==> r == Success(()) && peers == old(peers)[username := tx]
    {
      if username in peers {
        return Failure(UsernameTaken(username));
      }
      peers := peers[username := tx];
      return Success(());
    }

    /** `ChatState::leave`: remove the name if it is there. */
    method Leave(username: string)
      modifies this
      ensures peers == AfterLeave(old(peers), username)
    {
      peers := peers - {username};
    }

    /** `ChatState::broadcast`: send one `FROM` payload to every peer but the sender. */
    method Broadcast(from: string, msg: string)
      modifies this
      ensures peers == AfterBroadcast(old(peers), from, msg)
    {
      var payload := Protocol.FromLine(from, msg);
      var pending := peers.Keys;
      while pending != {}
        invariant pending <= peers.Keys == old(peers).Keys
        invariant forall v :: v in peers ==>
                    peers[v] == if v in pending || v == from then old(peers)[v] else old(peers)[v].Send(payload)
        decreases pending
      {
        var user :| user in pending;
        if user != from {
          peers := peers[user := peers[user].Send(payload)];
        }
        pending := pending - {user};
      }
    }
  }
}
