/**
 * One connection's session (`handle_connection` in `src/bin/server.rs`):
 * the JOIN handshake, the registry join, the active command loop, and the
 * cleanup that removes the user again.
 *
 * The socket is replaced by its observable behaviour. The read half is the
 * sequence of `read_line` results: `Line(text)` is the text one call
 * appended (empty text is a 0-byte read, end of stream), `Fault` is a read
 * that failed, and every read past the end of the sequence is end of
 * stream. The write half accepts the first `accepted` writes and fails
 * every later one; `out` is the sequence of lines written successfully.
 * Every registry call is atomic under the lock, so the registry is one
 * sequentially used `ChatState`.
 */
module Server {
  import opened Wrappers
  import opened Protocol
  import opened Registry

  datatype Read = Line(text: string) | Fault

  /** How `handle_connection` returns: `Ok(())`, or an I/O error propagated by `?`. */
  datatype Outcome = Closed | Failed

  /** The registry, the lines written and the way the session ended. */
  datatype SessionResult = SessionResult(peers: Peers, out: seq<string>, outcome: Outcome)

  const NotJoinReply: string := "first command must be JOIN <username>"
  const NoUsernameReply: string := "username is required"
  const TakenReply: string := "username taken"
  const JoinedReply: string := "joined chat"
  const UnknownReply: string := "unknown command"

  /** The result of the `i`-th `read_line`; past the input, the stream is at its end. */
  function ReadAt(input: seq<Read>, i: nat): Read {
    if i < |input| then input[i] else Line([])
  }

  /** What the active loop makes of one read. */
  datatype Command = Eof | ReadError | Blank | MsgCmd(text: string) | LeaveCmd | UnknownCmd

  /**
   * One turn of the active loop's dispatch: 0 bytes end the loop, a line
   * that is empty after `trim_end` is skipped, otherwise the first
   * space-separated token decides; a `MSG` without a space carries "".
   * Only a 0-byte read ends the loop; a line of nothing but whitespace (a
   * bare newline, say) is skipped.
   */
  function Classify(r: Read): (c: Command)
    ensures c == ReadError <==> r == Fault
    ensures c == Eof <==> r == Line([])
    ensures c == Blank <==> r.Line? && r.text != [] && forall k :: 0 <= k < |r.text| ==> IsWhitespace(r.text[k])
  {
    match r
    case Fault => ReadError
    case Line(text) =>
      if text == [] then Eof
      else
        var trimmed := TrimEnd(text);
        if trimmed == [] then Blank
        else
          var parts := SplitAtSpace(trimmed);
          if parts.head == CmdMsg then MsgCmd(parts.tail.GetOr(""))
          else if parts.head == CmdLeave then LeaveCmd
          else UnknownCmd
  }

  /** What the active loop makes of each read. */
  function Commands(input: seq<Read>): seq<Command> {
    seq(|input|, i requires 0 <= i < |input| => Classify(input[i]))
  }

  /** The `i`-th command; past the input, the stream is at its end. */
  function CommandAt(cmds: seq<Command>, i: nat): Command {
    if i < |cmds| then cmds[i] else Eof
  }

  lemma CommandOfRead(input: seq<Read>, i: nat)
    ensures CommandAt(Commands(input), i) == Classify(ReadAt(input, i))
  {
  }

  /** A handshake that ends after writing one reply line (`write_all(...).await?; return Ok(())`). */
  function Reply(peers: Peers, line: string, accepted: nat): SessionResult {
    if 0 < accepted then SessionResult(peers, [line], Closed) else SessionResult(peers, [], Failed)
  }

  /** The whole session, from the first read on, against registry `peers`. */
  function Session(peers: Peers, input: seq<Read>, accepted: nat): SessionResult {
    match ReadAt(input, 0)
    case Fault => SessionResult(peers, [], Failed)
    case Line(text) =>
      if text == [] then SessionResult(peers, [], Closed)
      else
        var parts := SplitAtSpace(TrimEnd(text));
        if parts.head != CmdJoin then Reply(peers, Err(NotJoinReply), accepted)
        else if parts.tail.GetOr("") == [] then Reply(peers, Err(NoUsernameReply), accepted)
        else
          var username := parts.tail.value;
          match AfterJoin(peers, username, NewSink())
          case Failure(_) => Reply(peers, Err(TakenReply), accepted)
          case Success(joined) =>
            if 0 < accepted then Active(joined, username, Commands(input), 1, [Info(JoinedReply)], accepted)
            else SessionResult(joined, [], Failed)
  }

  /**
   * The active loop of `username`'s session from the `i`-th command on, with
   * `out` written so far. End of stream and LEAVE run the cleanup; a read
   * error or a failed write returns at once, without it.
   */
  function Active(peers: Peers, username: string, cmds: seq<Command>, i: nat, out: seq<string>, accepted: nat): SessionResult
    decreases |cmds| - i
  {
    match CommandAt(cmds, i)
    case ReadError => SessionResult(peers, out, Failed)
    case Eof => SessionResult(AfterLeave(peers, username), out, Closed)
    case LeaveCmd => SessionResult(AfterLeave(peers, username), out, Closed)
    case Blank => Active(peers, username, cmds, i + 1, out, accepted)
    case MsgCmd(text) => Active(AfterBroadcast(peers, username, text), username, cmds, i + 1, out, accepted)
    case UnknownCmd =>
      if |out| < accepted then Active(peers, username, cmds, i + 1, out + [Err(UnknownReply)], accepted)
      else SessionResult(peers, out, Failed)
  }

  /**
   * The texts the active loop broadcasts from the `i`-th command on, in
   * order, when `budget` more writes can succeed.
   */
  function Sent(cmds: seq<Command>, i: nat, budget: nat): seq<string>
    decreases |cmds| - i
  {
    match CommandAt(cmds, i)
    case ReadError => []
    case Eof => []
    case LeaveCmd => []
    case Blank => Sent(cmds, i + 1, budget)
    case MsgCmd(text) => [text] + Sent(cmds, i + 1, budget)
    case UnknownCmd => if 0 < budget then Sent(cmds, i + 1, budget - 1) else []
  }

  /**
   * How many `ERR unknown command` replies the active loop writes from the
   * `i`-th command on, when `budget` more writes can succeed: one per
   * unknown command until a write fails.
   */
  function Unknowns(cmds: seq<Command>, i: nat, budget: nat): nat
    decreases |cmds| - i
  {
    match CommandAt(cmds, i)
    case ReadError => 0
    case Eof => 0
    case LeaveCmd => 0
    case Blank => Unknowns(cmds, i + 1, budget)
    case MsgCmd(_) => Unknowns(cmds, i + 1, budget)
    case UnknownCmd => if 0 < budget then 1 + Unknowns(cmds, i + 1, budget - 1) else 0
  }

  /**
   * The command that ends the active loop from the `i`-th command on, when
   * `budget` more writes can succeed: end of stream, LEAVE, a read error,
   * or the unknown command whose reply could not be written.
   */
  function Exit(cmds: seq<Command>, i: nat, budget: nat): Command
    decreases |cmds| - i
  {
    match CommandAt(cmds, i)
    case ReadError => ReadError
    case Eof => Eof
    case LeaveCmd => LeaveCmd
    case Blank => Exit(cmds, i + 1, budget)
    case MsgCmd(_) => Exit(cmds, i + 1, budget)
    case UnknownCmd => if 0 < budget then Exit(cmds, i + 1, budget - 1) else UnknownCmd
  }

  /** The payloads broadcasting `msgs` from `from` puts into a peer's queue. */
  function Relayed(from: string, msgs: seq<string>): seq<string> {
    if msgs == [] then [] else [FromLine(from, msgs[0])] + Relayed(from, msgs[1..])
  }

  lemma RelayedCons(from: string, msg: string, msgs: seq<string>)
    ensures Relayed(from, [msg] + msgs) == [FromLine(from, msg)] + Relayed(from, msgs)
  {
    assert ([msg] + msgs)[1..] == msgs;
  }

  lemma BroadcastThenRelay(peers: Peers, from: string, msg: string, msgs: seq<string>, v: string)
    requires v in peers && v != from
    ensures var next := AfterBroadcast(peers, from, msg);
      next[v].queue + (if next[v].open then Relayed(from, msgs) else [])
      == peers[v].queue + (if peers[v].open then Relayed(from, [msg] + msgs) else [])
  {
    RelayedCons(from, msg, msgs);
  }

  /** The first line is `JOIN <username>` with a non-empty name. */
  predicate JoinsAs(input: seq<Read>, username: string) {
    var first := ReadAt(input, 0);
    && first.Line?
    && first.text != []
    && username != []
    && SplitAtSpace(TrimEnd(first.text)) == Split(CmdJoin, Some(username))
  }

  /**
   * The active loop leaves the registry's names as they were, except that
   * cleanup removes the user's own; an early return skips the cleanup and
   * leaves the user's own entry exactly as it was (no one's broadcast,
   * including its own, reaches it).
   */
  lemma {:induction false} ActiveRegistry(peers: Peers, username: string, cmds: seq<Command>, i: nat, out: seq<string>, accepted: nat)
    requires username in peers
    ensures var r := Active(peers, username, cmds, i, out, accepted);
      && (r.outcome == Closed ==> r.peers.Keys == peers.Keys - {username})
      && (r.outcome == Failed ==> r.peers.Keys == peers.Keys && r.peers[username] == peers[username])
    decreases |cmds| - i
  {
    match CommandAt(cmds, i)
    case ReadError =>
    case Eof =>
    case LeaveCmd =>
    case Blank =>
      ActiveRegistry(peers, username, cmds, i + 1, out, accepted);
    case MsgCmd(text) =>
      ActiveRegistry(AfterBroadcast(peers, username, text), username, cmds, i + 1, out, accepted);
    case UnknownCmd =>
      if |out| < accepted {
        ActiveRegistry(peers, username, cmds, i + 1, out + [Err(UnknownReply)], accepted);
      }
  }

  /**
   * The active loop ends cleanly, running the cleanup, exactly when it stops
   * at end of stream or LEAVE; a read error, or an unknown command whose
   * reply cannot be written, returns the error instead.
   */
  lemma {:induction false} ActiveExit(peers: Peers, username: string, cmds: seq<Command>, i: nat, out: seq<string>, accepted: nat)
    requires |out| <= accepted
    ensures var r := Active(peers, username, cmds, i, out, accepted);
      var e := Exit(cmds, i, accepted - |out|);
      && (r.outcome == Closed <==> e == Eof || e == LeaveCmd)
      && (r.outcome == Failed <==> e == ReadError || e == UnknownCmd)
    decreases |cmds| - i
  {
    match CommandAt(cmds, i)
    case ReadError =>
    case Eof =>
    case LeaveCmd =>
    case Blank =>
      ActiveExit(peers, username, cmds, i + 1, out, accepted);
    case MsgCmd(text) =>
      ActiveExit(AfterBroadcast(peers, username, text), username, cmds, i + 1, out, accepted);
    case UnknownCmd =>
      if |out| < accepted {
        ActiveExit(peers, username, cmds, i + 1, out + [Err(UnknownReply)], accepted);
      }
  }

  /**
   * The active loop only ever writes `ERR unknown command` lines, after
   * what was written before: exactly one per unknown command while the
   * socket accepts writes, and never more than it accepts.
   */
  lemma {:induction false} ActiveOutput(peers: Peers, username: string, cmds: seq<Command>, i: nat, out: seq<string>, accepted: nat)
    requires |out| <= accepted
    ensures var r := Active(peers, username, cmds, i, out, accepted);
      && out <= r.out
      && |r.out| <= accepted
      && |r.out| == |out| + Unknowns(cmds, i, accepted - |out|)
      && forall k :: |out| <= k < |r.out| ==> r.out[k] == Err(UnknownReply)
    decreases |cmds| - i
  {
    match CommandAt(cmds, i)
    case ReadError =>
    case Eof =>
    case LeaveCmd =>
    case Blank =>
      ActiveOutput(peers, username, cmds, i + 1, out, accepted);
    case MsgCmd(text) =>
      ActiveOutput(AfterBroadcast(peers, username, text), username, cmds, i + 1, out, accepted);
    case UnknownCmd =>
      if |out| < accepted {
        ActiveOutput(peers, username, cmds, i + 1, out + [Err(UnknownReply)], accepted);
      }
  }

  /**
   * Every other peer stays registered with its sink open or closed as
   * before, and an open one receives one `FROM` payload per `MSG`, in the
   * order the session sent them.
   */
  lemma {:induction false} ActiveDelivers(peers: Peers, username: string, cmds: seq<Command>, i: nat, out: seq<string>, accepted: nat, v: string)
    requires v in peers && v != username && |out| <= accepted
    ensures var r := Active(peers, username, cmds, i, out, accepted);
      && v in r.peers
      && r.peers[v].open == peers[v].open
      && r.peers[v].queue == peers[v].queue + (if peers[v].open then Relayed(username, Sent(cmds, i, accepted - |out|)) else [])
    decreases |cmds| - i
  {
    match CommandAt(cmds, i)
    case ReadError =>
    case Eof =>
    case LeaveCmd =>
    case Blank =>
      ActiveDelivers(peers, username, cmds, i + 1, out, accepted, v);
    case MsgCmd(text) =>
      ActiveDelivers(AfterBroadcast(peers, username, text), username, cmds, i + 1, out, accepted, v);
      assert Sent(cmds, i, accepted - |out|) == [text] + Sent(cmds, i + 1, accepted - |out|);
      BroadcastThenRelay(peers, username, text, Sent(cmds, i + 1, accepted - |out|), v);
    case UnknownCmd =>
      if |out| < accepted {
        ActiveDelivers(peers, username, cmds, i + 1, out + [Err(UnknownReply)], accepted, v);
      }
  }

  /** A session whose first line joins under a free name continues in the active loop. */
  lemma SessionJoins(peers: Peers, input: seq<Read>, accepted: nat, username: string)
    requires JoinsAs(input, username) && username !in peers && 0 < accepted
    ensures Session(peers, input, accepted) == Active(peers[username := NewSink()], username, Commands(input), 1, [Info(JoinedReply)], accepted)
  {
  }

  /** End of stream before any line: nothing is written and the registry is untouched. */
  lemma EofBeforeJoin(peers: Peers, input: seq<Read>, accepted: nat)
    requires ReadAt(input, 0) == Line([])
    ensures Session(peers, input, accepted) == SessionResult(peers, [], Closed)
  {
  }

  /**
   * A first line whose first token is not `JOIN` gets one error line, and
   * the registry is untouched; a failed write returns the error instead.
   */
  lemma FirstLineNotJoin(peers: Peers, input: seq<Read>, accepted: nat)
    requires ReadAt(input, 0).Line? && ReadAt(input, 0).text != []
    requires SplitAtSpace(TrimEnd(ReadAt(input, 0).text)).head != CmdJoin
    ensures var r := Session(peers, input, accepted);
      && r.peers == peers
      && (0 < accepted ==> r.out == [Err(NotJoinReply)] && r.outcome == Closed)
      && (accepted == 0 ==> r.out == [] && r.outcome == Failed)
  {
  }

  /**
   * `JOIN` with no name, or an empty one, gets one error line, and the
   * registry is untouched; a failed write returns the error instead.
   */
  lemma UsernameMissing(peers: Peers, input: seq<Read>, accepted: nat)
    requires ReadAt(input, 0).Line? && ReadAt(input, 0).text != []
    requires var parts := SplitAtSpace(TrimEnd(ReadAt(input, 0).text)); parts.head == CmdJoin && parts.tail.GetOr("") == []
    ensures var r := Session(peers, input, accepted);
      && r.peers == peers
      && (0 < accepted ==> r.out == [Err(NoUsernameReply)] && r.outcome == Closed)
      && (accepted == 0 ==> r.out == [] && r.outcome == Failed)
  {
  }

  /**
   * A name already held is refused with one error line; the session ends
   * without the cleanup, so the holder's entry, sink included, survives,
   * whether or not the error line could be written.
   */
  lemma UsernameTakenRefused(peers: Peers, input: seq<Read>, accepted: nat, username: string)
    requires JoinsAs(input, username) && username in peers
    ensures var r := Session(peers, input, accepted);
      && r.peers == peers
      && (0 < accepted ==> r.out == [Err(TakenReply)] && r.outcome == Closed)
      && (accepted == 0 ==> r.out == [] && r.outcome == Failed)
  {
  }

  /**
   * A free name whose `INFO joined chat` cannot be written: the session
   * returns the error before the active loop and before the cleanup, so
   * the name stays registered with a sink nothing will ever drain.
   */
  lemma JoinAckFails(peers: Peers, input: seq<Read>, username: string)
    requires JoinsAs(input, username) && username !in peers
    ensures Session(peers, input, 0) == SessionResult(peers[username := NewSink()], [], Failed)
  {
  }

  /**
   * A free name is registered and acknowledged with `INFO joined chat`;
   * afterwards only `ERR unknown command` lines are written. The session
   * ends cleanly exactly when its loop stops at end of stream or LEAVE, and
   * then leaves the same names registered as before it; one that
   * returns early leaves its own name registered, its sink never having
   * received anything.
   */
  lemma JoinAccepted(peers: Peers, input: seq<Read>, accepted: nat, username: string)
    requires JoinsAs(input, username) && username !in peers
    requires 0 < accepted
    ensures var r := Session(peers, input, accepted);
      && 1 <= |r.out| <= accepted
      && |r.out| == 1 + Unknowns(Commands(input), 1, accepted - 1)
      && (r.outcome == Closed <==> Exit(Commands(input), 1, accepted - 1) == Eof || Exit(Commands(input), 1, accepted - 1) == LeaveCmd)
      && r.out[0] == Info(JoinedReply)
      && (forall k :: 1 <= k < |r.out| ==> r.out[k] == Err(UnknownReply))
      && (r.outcome == Closed ==> r.peers.Keys == peers.Keys)
      && (r.outcome == Failed ==> r.peers.Keys == peers.Keys + {username} && r.peers[username] == NewSink())
  {
    var joined := peers[username := NewSink()];
    SessionJoins(peers, input, accepted, username);
    ActiveRegistry(joined, username, Commands(input), 1, [Info(JoinedReply)], accepted);
    ActiveOutput(joined, username, Commands(input), 1, [Info(JoinedReply)], accepted);
    ActiveExit(joined, username, Commands(input), 1, [Info(JoinedReply)], accepted);
  }

  /**
   * After a successful join, every peer registered before the session
   * stays registered, and an open one receives `FROM <username> <text>`
   * for each `MSG <text>` of the session, in order.
   */
  lemma JoinedDelivers(peers: Peers, input: seq<Read>, accepted: nat, username: string, v: string)
    requires JoinsAs(input, username) && username !in peers
    requires 0 < accepted && v in peers
    ensures var r := Session(peers, input, accepted);
      && v in r.peers
      && r.peers[v].open == peers[v].open
      && r.peers[v].queue == peers[v].queue + (if peers[v].open then Relayed(username, Sent(Commands(input), 1, accepted - 1)) else [])
  {
    var joined := peers[username := NewSink()];
    SessionJoins(peers, input, accepted, username);
    ActiveDelivers(joined, username, Commands(input), 1, [Info(JoinedReply)], accepted, v);
  }

  /**
   * Whatever the input, a session never removes or reopens anyone else's
   * entry and only ever appends to other users' queues.
   */
  lemma SessionKeepsOthers(peers: Peers, input: seq<Read>, accepted: nat)
    ensures var r := Session(peers, input, accepted);
      forall v :: v in peers ==> v in r.peers && r.peers[v].open == peers[v].open && peers[v].queue <= r.peers[v].queue
  {
    var first := ReadAt(input, 0);
    if first.Line? && first.text != [] {
      var parts := SplitAtSpace(TrimEnd(first.text));
      if parts.head == CmdJoin && parts.tail.GetOr("") != [] && parts.tail.value !in peers && 0 < accepted {
        var username := parts.tail.value;
        assert JoinsAs(input, username);
        forall v | v in peers
          ensures var r := Session(peers, input, accepted);
            v in r.peers && r.peers[v].open == peers[v].open && peers[v].queue <= r.peers[v].queue
        {
          JoinedDelivers(peers, input, accepted, username, v);
        }
      }
    }
  }

  /**
   * The session with its intended lifecycle: once the name has joined,
   * every way out, an I/O error included, ends with the cleanup.
   */
  function CleanedSession(peers: Peers, input: seq<Read>, accepted: nat): SessionResult {
    var r := Session(peers, input, accepted);
    var first := ReadAt(input, 0);
    if first.Line? && first.text != [] then
      var parts := SplitAtSpace(TrimEnd(first.text));
      if parts.head == CmdJoin && parts.tail.GetOr("") != [] && parts.tail.value !in peers
      then SessionResult(AfterLeave(r.peers, parts.tail.value), r.out, r.outcome)
      else r
    else r
  }

  /**
   * With the cleanup on every exit, a session that joined leaves the same
   * names registered as before it, so its name can be joined again; where
   * the session as written ends cleanly, nothing changes.
   */
  lemma CleanedSessionFreesName(peers: Peers, input: seq<Read>, accepted: nat, username: string)
    requires JoinsAs(input, username) && username !in peers
    ensures var r := CleanedSession(peers, input, accepted);
      && r.peers.Keys == peers.Keys
      && AfterJoin(r.peers, username, NewSink()).Success?
      && (Session(peers, input, accepted).outcome == Closed ==> r == Session(peers, input, accepted))
  {
    var joined := peers[username := NewSink()];
    var w := Session(peers, input, accepted);
    if 0 < accepted {
      SessionJoins(peers, input, accepted, username);
      ActiveRegistry(joined, username, Commands(input), 1, [Info(JoinedReply)], accepted);
    }
    if w.outcome == Closed {
      assert username !in w.peers;
      assert AfterLeave(w.peers, username) == w.peers;
    }
  }

  /**
   * `handle_connection`: the handshake, the join, the active loop and the
   * cleanup, step by step against the shared registry.
   */
  method HandleConnection(state: ChatState, input: seq<Read>, accepted: nat) returns (out: seq<string>, outcome: Outcome)
    modifies state
    ensures var r := Session(old(state.peers), input, accepted);
      state.peers == r.peers && out == r.out && outcome == r.outcome
  {
    out := [];
    ghost var r := Session(old(state.peers), input, accepted);
    // 1. Expect JOIN <username>
    var line := ReadAt(input, 0);
    if line.Fault? {
      return out, Failed;
    }
    if line.text == [] {
      return out, Closed;
    }
    var parts := SplitAtSpace(TrimEnd(line.text));
    if parts.head != CmdJoin {
      assert r == Reply(old(state.peers), Err(NotJoinReply), accepted);
      if |out| < accepted {
        out := out + [Err(NotJoinReply)];
        return out, Closed;
      }
      return out, Failed;
    }
    if parts.tail.None? || parts.tail.value == [] {
      assert r == Reply(old(state.peers), Err(NoUsernameReply), accepted);
      if |out| < accepted {
        out := out + [Err(NoUsernameReply)];
        return out, Closed;
      }
      return out, Failed;
    }
    var username := parts.tail.value;

    // Try to join
    var joined := state.Join(username, NewSink());
    if joined.Failure? {
      assert r == Reply(old(state.peers), Err(TakenReply), accepted);
      if |out| < accepted {
        out := out + [Err(TakenReply)];
        return out, Closed;
      }
      return out, Failed;
    }
    if |out| < accepted {
      out := out + [Info(JoinedReply)];
    } else {
      return out, Failed;
    }

    assert JoinsAs(input, username);
    assert state.peers == old(state.peers)[username := NewSink()] && out == [Info(JoinedReply)];
    SessionJoins(old(state.peers), input, accepted, username);
    out, outcome := ServeJoined(state, username, input, out, accepted);
  }

  /**
   * The rest of `handle_connection` once `username` has joined: the active
   * command loop from the second read on, then the cleanup.
   */
  method ServeJoined(state: ChatState, username: string, input: seq<Read>, written: seq<string>, accepted: nat)
    returns (out: seq<string>, outcome: Outcome)
    requires 1 <= |input|
    modifies state
    ensures var r := Active(old(state.peers), username, Commands(input), 1, written, accepted);
      state.peers == r.peers && out == r.out && outcome == r.outcome
  {
    out := written;
    ghost var cmds := Commands(input);
    ghost var goal := Active(old(state.peers), username, cmds, 1, written, accepted);
    // 2. Handle incoming commands
    var i := 1;
    while true
      invariant 1 <= i <= |input|
      invariant Active(state.peers, username, cmds, i, out, accepted) == goal
      decreases |input| - i
    {
      var next := ReadAt(input, i);
      if next.Fault? {
        assert CommandAt(cmds, i) == ReadError by { CommandOfRead(input, i); }
        assert goal == SessionResult(state.peers, out, Failed);
        return out, Failed;
      }
      if next.text == [] {
        // client disconnected
        assert CommandAt(cmds, i) == Eof by { CommandOfRead(input, i); }
        assert goal == SessionResult(AfterLeave(state.peers, username), out, Closed);
        break;
      }
      var trimmed := TrimEnd(next.text);
      if trimmed == [] {
        assert CommandAt(cmds, i) == Blank by { CommandOfRead(input, i); }
        assert goal == Active(state.peers, username, cmds, i + 1, out, accepted);
        i := i + 1;
        continue;
      }
      var command := SplitAtSpace(trimmed);
      if command.head == CmdMsg {
        var msg := command.tail.GetOr("");
        assert CommandAt(cmds, i) == MsgCmd(msg) by { CommandOfRead(input, i); }
        assert goal == Active(AfterBroadcast(state.peers, username, msg), username, cmds, i + 1, out, accepted);
        state.Broadcast(username, msg);
      } else if command.head == CmdLeave {
        assert CommandAt(cmds, i) == LeaveCmd by { CommandOfRead(input, i); }
        assert goal == SessionResult(AfterLeave(state.peers, username), out, Closed);
        break;
      } else {
        assert CommandAt(cmds, i) == UnknownCmd by { CommandOfRead(input, i); }
        if |out| < accepted {
          assert goal == Active(state.peers, username, cmds, i + 1, out + [Err(UnknownReply)], accepted);
          out := out + [Err(UnknownReply)];
        } else {
          assert goal == SessionResult(state.peers, out, Failed);
          return out, Failed;
        }
      }
      assert Active(state.peers, username, cmds, i + 1, out, accepted) == goal;
      i := i + 1;
    }

    // Cleanup
    state.Leave(username);
    outcome := Closed;
  }
}
