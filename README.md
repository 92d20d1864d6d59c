# simple-chat: the registry and the session handler, in Dafny

This project models the core of a line-based chat server. The server keeps
a shared registry of connected users (`ChatState`). Each entry maps a
username to the sending half of that user's outbound channel. Every
connection runs a session handler (`handle_connection`):

1. Read one line. It must be `JOIN <username>` with a non-empty name.
2. Register the name. A name that is already held is refused.
3. Acknowledge with `INFO joined chat`.
4. Loop over commands: `MSG <text>` broadcasts `FROM <user> <text>` to every
   other user, `LEAVE` ends the loop, a blank line is skipped, and anything
   else gets `ERR unknown command`.
5. Remove the name from the registry.

Modules:

- `Wrappers` (`wrappers.dfy`): `Option` and `Result`.
- `Protocol` (`protocol.dfy`): the command keywords and the reply
  formatters `Info`, `Err` and `FromLine`. It also holds the two string
  operations the server parses with. `TrimEnd` is `str::trim_end`, using
  Rust's `char::is_whitespace` (the full Unicode White_Space set).
  `SplitAtSpace` is `str::splitn(2, ' ')`, read through its first two
  `next()` calls. It also holds the client's line formats, which are used
  for round-trip lemmas.
- `Registry` (`registry.dfy`): a channel is a `Sink`: an `open` flag (the
  receiver is still alive) plus the FIFO `queue` of payloads not yet
  received. `AfterJoin`, `AfterLeave` and `AfterBroadcast` are the
  registry's transitions as values. `ChatState` is a class with a
  `peers: map<string, Sink>` field. Its methods `Join`, `Leave` and
  `Broadcast` are proved against those transitions. `Broadcast` loops over
  the names the way the source iterates the `HashMap`.
- `Server` (`server.dfy`): `HandleConnection` and `ServeJoined` are the
  session handler as imperative code: the handshake, the join, the active
  loop and the cleanup. They are proved equal to the functions `Session`
  and `Active`. The socket is replaced by its observable behaviour:
  - `input` is the sequence of `read_line` results. `Line(text)` is the text
    one call read; an empty text is a 0-byte read, meaning end of stream.
    `Fault` is a read that failed. Every read past the end of `input` is end
    of stream. A real read stops after the first newline, so its text
    satisfies `Protocol.OneLine` (a newline only as the last character).
    The session functions are defined for every text. The lemmas about
    client lines require names and texts without a newline, and prove the
    line the client writes is then one read.
  - `accepted` is how many writes succeed before `write_all` starts to fail.
  - `out` is the sequence of lines written.
  - `Outcome` is `Closed` for `Ok(())` and `Failed` for an error returned
    by `?`.
- `Scenarios` (`scenarios.dfy`): whole sessions on concrete inputs. Some run
  one after another against the same registry.

Each registry call runs under the `RwLock` and is atomic. The model
therefore runs sessions one at a time against one `ChatState`.

An I/O error after a successful join skips the cleanup. This covers a
failed read in the active loop, a failed `ERR unknown command` write, and
a failed `INFO joined chat` write. In each case the session returns early
through `?`, the name stays registered, and every later `JOIN` under it is
refused. A failed read at line 99 of `src/bin/server.rs` or a failed write
at line 123 also skips `forward_task.abort()` (line 134): the registry
still holds the channel's sender, so the detached forwarder waits on a
channel that is never closed. (After a failed `INFO` write at line 82 the
forwarder has not been spawned yet, and the receiver is dropped on
return.) Nothing in the
code suggests this is meant; the cleanup block reads as the one way out of
a joined session. The model follows the code: see `Server.JoinAccepted`
(errors in the active loop), `Server.JoinAckFails` (the failed `INFO`
write) and `Scenarios.ReadErrorLeavesNameTaken`. `Server.CleanedSession`
is the intended lifecycle, with the cleanup on every exit; see
"## Findings".

## Model

| member | source | states |
|---|---|---|
| `Protocol.KeywordsAreTokens` | src/lib.rs:63-65 | the constants `CmdJoin`, `CmdMsg` and `CmdLeave` (`CMD_JOIN`, `CMD_MSG`, `CMD_LEAVE`) are distinct, non-empty, hold no space and do not end in whitespace |
| `Protocol.BareTokenReadsBack` | src/bin/server.rs:104-109 | a non-empty token without a space or trailing whitespace, alone on a line, is read back as that token with no argument |
| `Protocol.Info` | src/lib.rs:67-69 | defines `protocol::info(msg)`: `INFO `, the message and a newline (no contract; see `RepliesSplit` and `ReplyKindsDistinct`) |
| `Protocol.Err` | src/lib.rs:71-73 | defines `protocol::err(msg)`: `ERR `, the message and a newline (no contract; see `RepliesSplit` and `ReplyKindsDistinct`) |
| `Protocol.FromLine` | src/lib.rs:34 | defines the broadcast payload `FROM <from> <msg>` and a newline (no contract; see `FromLineSplits` and `FromLineAmbiguous`) |
| `Protocol.TrimEnd` | src/bin/server.rs:104 | the result is a prefix of the line that is empty or does not end in whitespace, and everything cut off is whitespace |
| `Protocol.TrimEndUnique` | src/bin/server.rs:104-105 | those three properties determine `trim_end`'s result uniquely |
| `Protocol.SplitAtSpace` | src/bin/server.rs:108-109 | the first piece never holds a space; with no space it is the whole line; otherwise first piece, one space and the rest rebuild the line |
| `Protocol.SplitAtSpaceUnique` | src/bin/server.rs:108-113 | splitting a line built from a space-free head, a space and a tail gives back exactly that head and tail (and a space-free line gives no tail) |
| `Protocol.RepliesSplit` | src/lib.rs:67-73 | without its newline, an `info(m)` line splits into `INFO` and `m`, and an `err(m)` line into `ERR` and `m` |
| `Protocol.FromLineSplits` | src/lib.rs:34 | a relayed `FROM` line splits into `FROM`, then the sender and the text, when the sender's name holds no space |
| `Protocol.FromLineAmbiguous` | src/lib.rs:34 | names may hold spaces, so `FROM bob smith hi` is what both `bob smith` saying `hi` and `bob` saying `smith hi` produce |
| `Protocol.ReplyKindsDistinct` | src/lib.rs:67-73 | an INFO line, an ERR line and a FROM line are never equal |
| `Protocol.TrimEndDropsWhitespace` | src/bin/server.rs:104 | one trailing whitespace character (such as the line's newline) does not change the trimmed line |
| `Protocol.JoinLineParses` | src/bin/client.rs:33-34 | if the name is non-empty, holds no newline and does not end in whitespace, the client's `JOIN <name>` line is one read, and the server reads it back as `JOIN` and that name |
| `Protocol.MsgLineParses` | src/bin/client.rs:84-94 | for a trimmed text without a newline, the client's `MSG <text>` line is one read, and the server reads it back as `MSG` and that text (an empty text returns through `unwrap_or("")`) |
| `Protocol.LeaveLineParses` | src/bin/client.rs:96 | the client's `LEAVE` line is one read, and the server reads it back as the bare `LEAVE` keyword |
| `Registry.Sink.Send` | src/lib.rs:39 | defines `let _ = tx.send(payload)`: appended to the queue while the receiver lives, dropped without error otherwise (no contract; see `AfterBroadcast` and `BroadcastsQueueInOrder`) |
| `Registry.NewSink` | src/bin/server.rs:63 | defines a fresh `mpsc::unbounded_channel()` seen from its sender: open, with an empty queue (no contract; see `SessionJoins` and `JoinAckFails`) |
| `Registry.AfterJoin` | src/lib.rs:21-27 | join fails with `UsernameTaken(name)` exactly when the name is held; on success the name maps to the new sink and every other entry is unchanged |
| `Registry.AfterLeave` | src/lib.rs:29-31 | the name is gone afterwards and every other entry is unchanged (a missing name changes nothing) |
| `Registry.AfterBroadcast` | src/lib.rs:33-41 | the names and open flags do not change; the sender's entry and closed sinks are untouched; every other open sink gets exactly one `FROM <from> <msg>\n` at the back of its queue |
| `Registry.JoinHeldNameFails` | src/lib.rs:21-24 | a second join under a name that was just joined fails with `UsernameTaken` |
| `Registry.LeaveThenJoin` | src/lib.rs:21-31 | after a leave, a join under the same name always succeeds |
| `Registry.LeaveIdempotent` | src/lib.rs:29-31 | leaving twice is the same as leaving once |
| `Registry.BroadcastsQueueInOrder` | src/lib.rs:33-41 | two broadcasts reach an open peer's queue in the order they were made (FIFO per sink) |
| `Registry.ChatState.constructor` | src/lib.rs:15-19 | a new registry has no peers |
| `Registry.ChatState.Join` | src/lib.rs:21-27 | on a held name it returns `UsernameTaken(name)` and the map is unchanged; otherwise it returns success and the map gains exactly that entry |
| `Registry.ChatState.Leave` | src/lib.rs:29-31 | the new map is the old one without the name |
| `Registry.ChatState.Broadcast` | src/lib.rs:33-41 | the loop over the names leaves the map equal to `AfterBroadcast` of the old map; sends to closed sinks are dropped without error |
| `Server.Classify` | src/bin/server.rs:99-124 | a read is `ReadError` exactly when it failed and `Eof` exactly when it read 0 bytes; it is `Blank` (skipped) exactly when it is non-empty and all whitespace, so a bare newline is not end of stream |
| `Server.Reply` | src/bin/server.rs:47-50 | defines a handshake exit that writes one error line, as at lines 47-50, 55-58 and 71-74: the line is written and the session closes, or the write fails and the session returns the error; the registry is passed through (no contract; see `FirstLineNotJoin`, `UsernameMissing` and `UsernameTakenRefused`) |
| `Server.Session` | src/bin/server.rs:39-82 | defines the whole session: the handshake's early returns, the join, the `INFO` write, then `Active` (no contract; see the lemmas below and `HandleConnection`) |
| `Server.Active` | src/bin/server.rs:97-132 | defines the active loop from one read on: end of stream and `LEAVE` run the cleanup, a read error or failed write returns without it (no contract; see `ActiveRegistry`, `ActiveOutput`, `ActiveDelivers` and `ServeJoined`) |
| `Server.Exit` | src/bin/server.rs:97-124 | defines the command that ends the loop: end of stream, LEAVE, a read error, or the unknown command whose reply cannot be written (no contract; see `ActiveExit`) |
| `Server.ActiveExit` | src/bin/server.rs:97-132 | the loop ends `Closed`, through the cleanup, exactly when it stops at end of stream or LEAVE, and `Failed` exactly when it stops at a read error or a failed reply write |
| `Server.ActiveRegistry` | src/bin/server.rs:97-132 | leaving the loop by end of stream or LEAVE (see `ActiveExit`) removes only the user's own name; an early return by `?` leaves the names as they were and the user's own entry untouched |
| `Server.Unknowns` | src/bin/server.rs:111-124 | defines how many `ERR unknown command` replies the loop writes: one per unknown command until a write fails, none for blank or `MSG` lines (no contract; see `ActiveOutput`) |
| `Server.ActiveOutput` | src/bin/server.rs:111-125 | the loop only appends `ERR unknown command` lines, exactly one per unknown command while writes succeed (`Unknowns`), never more than the socket accepts |
| `Server.ActiveDelivers` | src/bin/server.rs:108-116 | every other peer stays registered with the same open flag, and an open one receives `FROM <user> <text>` for each `MSG <text>`, in order |
| `Server.SessionJoins` | src/bin/server.rs:66-82 | a first line `JOIN <free name>` registers the name with a fresh sink, writes `INFO joined chat` and enters the active loop |
| `Server.EofBeforeJoin` | src/bin/server.rs:39-43 | end of stream on the first read: nothing written, registry unchanged |
| `Server.FirstLineNotJoin` | src/bin/server.rs:44-51 | a first token other than `JOIN`: registry unchanged; only `ERR first command must be JOIN <username>` is written and the session closes, or nothing is written and it fails if the write fails |
| `Server.UsernameMissing` | src/bin/server.rs:52-60 | `JOIN` with a missing or empty name: registry unchanged; only `ERR username is required` is written, or nothing and the session fails if the write fails |
| `Server.UsernameTakenRefused` | src/bin/server.rs:66-77 | a held name: the registry, including the holder's sink, is unchanged (no leave runs); only `ERR username taken` is written, or nothing and the session fails if the write fails |
| `Server.JoinAckFails` | src/bin/server.rs:66-82 | a free name whose `INFO joined chat` write fails: nothing is written, the session fails, and the name stays registered with a fresh sink (no cleanup) |
| `Server.JoinAccepted` | src/bin/server.rs:66-132 | a free name: the first line written is `INFO joined chat`, later ones are all `ERR unknown command`, one per unknown command while writes succeed; the session ends `Closed` exactly when its loop stops at end of stream or LEAVE; a clean end leaves the registry's names as before, and an early return leaves the name registered with its sink still empty |
| `Server.JoinedDelivers` | src/bin/server.rs:108-116 | over a whole session, every peer registered before stays registered and an open one receives the session's messages as `FROM` lines, in order |
| `Server.SessionKeepsOthers` | src/bin/server.rs:29-138 | for any input, a session never removes, closes or reopens another user's entry, and only appends to other users' queues |
| `Server.CleanedSession` | src/bin/server.rs:96-134 | defines the corrected variant of the session, the intended lifecycle: the code as written, plus the cleanup on every exit after a successful join (no contract; see `CleanedSessionFreesName`) |
| `Server.CleanedSessionFreesName` | src/bin/server.rs:96-134 | with the cleanup on every exit after the join, the registry's names end as before the session, so the name can be joined again; where the code as written ends cleanly, the result is the same |
| `Server.HandleConnection` | src/bin/server.rs:29-138 | the handler leaves the registry, the written lines and the outcome equal to `Session` of the old registry and the input |
| `Server.ServeJoined` | src/bin/server.rs:96-137 | the command loop and cleanup leave the registry, the written lines and the outcome equal to `Active` from the second read on |
| `Scenarios.AliceMessagesBob` | src/bin/server.rs:108-116 | with bob connected, alice's `MSG hi` puts `FROM alice hi` in bob's queue and nothing in hers, and she is gone after end of stream |
| `Scenarios.LeaveFreesName` | src/bin/server.rs:117-132 | after alice's `LEAVE`, a new connection joins as alice successfully |
| `Scenarios.UnknownCommandKeepsSession` | src/bin/server.rs:120-124 | `FOO` gets `ERR unknown command` and a later `MSG hi` still reaches bob |
| `Scenarios.ReadErrorLeavesNameTaken` | src/bin/server.rs:97-99 | a read error after joining leaves alice registered, and a later `JOIN alice` is refused with `ERR username taken` |

## Findings

| source | as written | input that shows it | evidently intended | confidence | as-written member | corrected member |
|---|---|---|---|---|---|---|
| src/bin/server.rs:99 | the `?` after `read_line` (and after the writes at lines 82 and 123) returns before the cleanup at lines 129-132, so the name stays in the registry | `JOIN alice`, then a failed read; a later `JOIN alice` gets `ERR username taken` | every exit after the join, I/O errors included, removes the name, as the cleanup block and `forward_task.abort()` at lines 128-134 intend for a joined session | medium, not executed | `Scenarios.ReadErrorLeavesNameTaken` | `Server.CleanedSessionFreesName` |

`HandleConnection` and the other lemmas keep modelling the code as written;
`CleanedSession` is the corrected lifecycle, stated beside it.

## Left out

- `main` in `src/bin/server.rs` is not modelled: the address from the environment, binding the listener, accepting sockets and spawning a task per connection are transport setup.
- The forwarder task and `forward_task.abort()` are not modelled. They drain a user's channel to the socket concurrently with the session. The per-user queues in `Sink` are FIFO, and that is all the model says about delivery to the socket.
- Sinks never close in the model. In the source a receiver goes away when the forwarder stops after a write error, or when the session returns before spawning it (a failed `INFO` write). The model never changes a registered sink's `open` flag. `Broadcast` handles closed sinks, which come from the registry it is given.
- `Arc<RwLock<ChatState>>` is not modelled. Sessions run one at a time. How concurrent sessions interleave is not modelled.
- Socket I/O is not modelled in detail. A read's bytes, a UTF-8 decoding failure (a read error, so `Fault`), and the log lines from `println!` and `eprintln!` are left out. A failed `write_all` adds nothing to `out`; partial writes are not modelled. `accepted` counts only the session's own writes, not the forwarder's.
- `HashMap` iteration order is not modelled. `Broadcast` picks the names in any order. Every order gives the same result, because each sink gets at most one payload.
- `src/bin/client.rs` is not modelled beyond the three command-line formats it writes. Its argument parsing and its interactive prompt are UI.
- `tests/integration_basic.rs` is not modelled: it starts processes and sleeps.
