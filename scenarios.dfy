/**
 * Whole sessions on concrete inputs, run one after another against the
 * same registry, written with the lines a client sends.
 */
module Scenarios {
  import opened Wrappers
  import opened Protocol
  import opened Registry
  import opened Server

  /** Reads `JOIN <username>` as its first line. */
  lemma JoinFirst(input: seq<Read>, username: string)
    requires |input| >= 1 && input[0] == Line(JoinLine(username))
    requires username != [] && Trimmed(username) && '\n' !in username
    ensures JoinsAs(input, username)
  {
    JoinLineParses(username);
  }

  lemma MsgIsMsg(text: string)
    requires Trimmed(text) && '\n' !in text
    ensures Classify(Line(MsgLine(text))) == MsgCmd(text)
  {
    MsgLineParses(text);
  }

  lemma LeaveIsLeave()
    ensures Classify(Line(LeaveLine)) == LeaveCmd
  {
    LeaveLineParses();
  }

  lemma FooIsUnknown()
    ensures Classify(Line("FOO\n")) == UnknownCmd
  {
    TrimEndDropsWhitespace("FOO", '\n');
    TrimEndUnique("FOO", "FOO");
    SplitAtSpaceUnique("FOO", None);
  }

  /** alice's "hi" lands in bob's queue and not in her own. */
  lemma AliceSaysHi()
    ensures AfterBroadcast(map["bob" := NewSink(), "alice" := NewSink()], "alice", "hi")
         == map["bob" := Sink(true, [FromLine("alice", "hi")]), "alice" := NewSink()]
  {
    var before := map["bob" := NewSink(), "alice" := NewSink()];
    var after := AfterBroadcast(before, "alice", "hi");
    assert "bob" != "alice";
    assert after.Keys == {"bob", "alice"};
    assert after["bob"] == Sink(true, [FromLine("alice", "hi")]);
    assert after["alice"] == NewSink();
  }

  /** alice's active loop, from the command at `i` on: "hi", then end of stream. */
  lemma HiThenEof(cmds: seq<Command>, i: nat, out: seq<string>)
    requires |cmds| == i + 1 && cmds[i] == MsgCmd("hi")
    ensures Active(map["bob" := NewSink(), "alice" := NewSink()], "alice", cmds, i, out, 2)
         == SessionResult(map["bob" := Sink(true, [FromLine("alice", "hi")])], out, Closed)
  {
    var after := map["bob" := Sink(true, [FromLine("alice", "hi")]), "alice" := NewSink()];
    AliceSaysHi();
    assert Active(map["bob" := NewSink(), "alice" := NewSink()], "alice", cmds, i, out, 2)
        == Active(after, "alice", cmds, i + 1, out, 2);
    assert AfterLeave(after, "alice") == map["bob" := Sink(true, [FromLine("alice", "hi")])];
  }

  /**
   * With bob connected, alice joins and says "hi": bob's queue receives
   * `FROM alice hi`, alice is acknowledged and nothing reaches her, and at
   * end of stream she is gone again.
   */
  lemma AliceMessagesBob()
    ensures Session(map["bob" := NewSink()], [Line(JoinLine("alice")), Line(MsgLine("hi"))], 2)
         == SessionResult(map["bob" := Sink(true, [FromLine("alice", "hi")])], [Info(JoinedReply)], Closed)
  {
    var input := [Line(JoinLine("alice")), Line(MsgLine("hi"))];
    JoinFirst(input, "alice");
    SessionJoins(map["bob" := NewSink()], input, 2, "alice");
    MsgIsMsg("hi");
    assert Commands(input)[1] == MsgCmd("hi");
    HiThenEof(Commands(input), 1, [Info(JoinedReply)]);
  }

  /** alice joins an empty registry and leaves with LEAVE: the registry is empty again. */
  lemma AliceJoinsAndLeaves()
    ensures Session(map[], [Line(JoinLine("alice")), Line(LeaveLine)], 1) == SessionResult(map[], [Info(JoinedReply)], Closed)
  {
    var input := [Line(JoinLine("alice")), Line(LeaveLine)];
    JoinFirst(input, "alice");
    SessionJoins(map[], input, 1, "alice");
    LeaveIsLeave();
    assert Commands(input)[1] == LeaveCmd;
    LeaveThenDone(Commands(input));
  }

  lemma LeaveThenDone(cmds: seq<Command>)
    requires |cmds| == 2 && cmds[1] == LeaveCmd
    ensures Active(map["alice" := NewSink()], "alice", cmds, 1, [Info(JoinedReply)], 1) == SessionResult(map[], [Info(JoinedReply)], Closed)
  {
    assert AfterLeave(map["alice" := NewSink()], "alice") == map[];
  }

  /** alice joins an empty registry and the stream ends: she is acknowledged and removed. */
  lemma AliceJoinsAlone()
    ensures Session(map[], [Line(JoinLine("alice"))], 1) == SessionResult(map[], [Info(JoinedReply)], Closed)
  {
    var input := [Line(JoinLine("alice"))];
    JoinFirst(input, "alice");
    SessionJoins(map[], input, 1, "alice");
    assert CommandAt(Commands(input), 1) == Eof;
    assert AfterLeave(map["alice" := NewSink()], "alice") == map[];
  }

  /** After alice leaves with LEAVE, a new connection can join as alice again. */
  lemma LeaveFreesName()
    ensures var first := Session(map[], [Line(JoinLine("alice")), Line(LeaveLine)], 1);
      && first == SessionResult(map[], [Info(JoinedReply)], Closed)
      && Session(first.peers, [Line(JoinLine("alice"))], 1)
         == SessionResult(map[], [Info(JoinedReply)], Closed)
  {
    AliceJoinsAndLeaves();
    AliceJoinsAlone();
  }

  /**
   * An unknown command is answered with `ERR unknown command` and the
   * session goes on: a later `MSG` still reaches bob.
   */
  lemma UnknownCommandKeepsSession()
    ensures Session(map["bob" := NewSink()], [Line(JoinLine("alice")), Line("FOO\n"), Line(MsgLine("hi"))], 2)
         == SessionResult(map["bob" := Sink(true, [FromLine("alice", "hi")])], [Info(JoinedReply), Err(UnknownReply)], Closed)
  {
    var input := [Line(JoinLine("alice")), Line("FOO\n"), Line(MsgLine("hi"))];
    JoinFirst(input, "alice");
    SessionJoins(map["bob" := NewSink()], input, 2, "alice");
    FooIsUnknown();
    MsgIsMsg("hi");
    var cmds := Commands(input);
    assert cmds[1] == UnknownCmd && cmds[2] == MsgCmd("hi");
    UnknownThenHi(cmds);
  }

  lemma UnknownThenHi(cmds: seq<Command>)
    requires |cmds| == 3 && cmds[1] == UnknownCmd && cmds[2] == MsgCmd("hi")
    ensures Active(map["bob" := NewSink(), "alice" := NewSink()], "alice", cmds, 1, [Info(JoinedReply)], 2)
         == SessionResult(map["bob" := Sink(true, [FromLine("alice", "hi")])], [Info(JoinedReply), Err(UnknownReply)], Closed)
  {
    var out := [Info(JoinedReply), Err(UnknownReply)];
    assert [Info(JoinedReply)] + [Err(UnknownReply)] == out;
    assert Active(map["bob" := NewSink(), "alice" := NewSink()], "alice", cmds, 1, [Info(JoinedReply)], 2)
        == Active(map["bob" := NewSink(), "alice" := NewSink()], "alice", cmds, 2, out, 2);
    HiThenEof(cmds, 2, out);
  }

  /**
   * A read error after joining returns through `?` before the cleanup:
   * alice stays registered, and every later `JOIN alice` is refused.
   */
  lemma ReadErrorLeavesNameTaken()
    ensures var first := Session(map[], [Line(JoinLine("alice")), Fault], 1);
      && first == SessionResult(map["alice" := NewSink()], [Info(JoinedReply)], Failed)
      && Session(first.peers, [Line(JoinLine("alice"))], 1)
         == SessionResult(map["alice" := NewSink()], [Err(TakenReply)], Closed)
  {
    var input := [Line(JoinLine("alice")), Fault];
    JoinFirst(input, "alice");
    SessionJoins(map[], input, 1, "alice");
    assert CommandAt(Commands(input), 1) == ReadError;
    var again := [Line(JoinLine("alice"))];
    JoinFirst(again, "alice");
    UsernameTakenRefused(map["alice" := NewSink()], again, 1, "alice");
  }
}
