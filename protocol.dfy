/**
 * The line protocol of the chat service: the command keywords, the reply
 * formatters, and the two string operations the server parses lines with
 * (`str::trim_end` and `str::splitn(2, ' ')`).
 */
module Protocol {
  import opened Wrappers

  const CmdJoin: string := "JOIN"
  const CmdMsg: string := "MSG"
  const CmdLeave: string := "LEAVE"

  /** `protocol::info`: an informational reply line. */
  function Info(msg: string): string {
    "INFO " + msg + "\n"
  }

  /** `protocol::err`: an error reply line. */
  function Err(msg: string): string {
    "ERR " + msg + "\n"
  }

  /** The payload `ChatState::broadcast` relays to the other peers. */
  function FromLine(from: string, msg: string): string {
    "FROM " + from + " " + msg + "\n"
  }

  /** A bare token, alone on a line, reads back as itself. */
  lemma BareTokenReadsBack(kw: string)
    requires kw != [] && ' ' !in kw && Trimmed(kw)
    ensures SplitAtSpace(TrimEnd(kw)) == Split(kw, None)
  {
    TrimEndUnique(kw, kw);
    SplitAtSpaceUnique(kw, None);
  }

  /**
   * The three command keywords are distinct bare tokens: none is empty,
   * holds a space or ends in whitespace, so each reads back as itself
   * (`BareTokenReadsBack`).
   */
  lemma KeywordsAreTokens()
    ensures CmdJoin != CmdMsg && CmdJoin != CmdLeave && CmdMsg != CmdLeave
    ensures CmdJoin != [] && ' ' !in CmdJoin && Trimmed(CmdJoin)
    ensures CmdMsg != [] && ' ' !in CmdMsg && Trimmed(CmdMsg)
    ensures CmdLeave != [] && ' ' !in CmdLeave && Trimmed(CmdLeave)
  {
  }

  /** The command lines a client writes (`client.rs`). */
  function JoinLine(username: string): string {
    CmdJoin + " " + username + "\n"
  }

  function MsgLine(text: string): string {
    CmdMsg + " " + text + "\n"
  }

  const LeaveLine: string := CmdLeave + "\n"

  /** Rust's `char::is_whitespace`: the Unicode White_Space property. */
  predicate IsWhitespace(c: char) {
    || ('\t' <= c <= '\r')
    || c == ' '
    || c == '\U{0085}'
    || c == '\U{00A0}'
    || c == '\U{1680}'
    || ('\U{2000}' <= c <= '\U{200A}')
    || c == '\U{2028}'
    || c == '\U{2029}'
    || c == '\U{202F}'
    || c == '\U{205F}'
    || c == '\U{3000}'
  }

  /**
   * A text one `read_line` call can return: it stops right after the first
   * newline, so a newline can only be the last character.
   */
  predicate OneLine(s: string) {
    forall k :: 0 <= k < |s| - 1 ==> s[k] != '\n'
  }

  /** A string that is empty or does not end in whitespace. */
  predicate Trimmed(s: string) {
    s == [] || !IsWhitespace(s[|s| - 1])
  }

  /**
   * `str::trim_end`: the longest prefix of `s` that does not end in
   * whitespace; everything cut off is whitespace.
   */
  function TrimEnd(s: string): (t: string)
    ensures t <= s
    ensures Trimmed(t)
    ensures forall k :: |t| <= k < |s| ==> IsWhitespace(s[k])
    decreases |s|
  {
    if s != [] && IsWhitespace(s[|s| - 1]) then TrimEnd(s[..|s| - 1]) else s
  }

  /** The characterisation in TrimEnd's contract determines its result. */
  lemma TrimEndUnique(s: string, t: string)
    requires t <= s && Trimmed(t)
    requires forall k :: |t| <= k < |s| ==> IsWhitespace(s[k])
    ensures TrimEnd(s) == t
  {
    var r := TrimEnd(s);
    assert |r| == |t|;
  }

  /** The two pieces `splitn(2, ' ')` yields: the text before the first space, and the rest after it if there is one. */
  datatype Split = Split(head: string, tail: Option<string>)

  /**
   * `str::splitn(2, ' ')`, read through its first two `next()` calls: the
   * head never holds a space, and head, space and tail rebuild the input.
   */
  function SplitAtSpace(s: string): (r: Split)
    ensures ' ' !in r.head
    ensures r.tail.None? ==> r.head == s
    ensures r.tail.Some? ==> s == r.head + " " + r.tail.value
  {
    if s == [] then Split([], None)
    else if s[0] == ' ' then Split([], Some(s[1..]))
    else
      var r := SplitAtSpace(s[1..]);
      Split([s[0]] + r.head, r.tail)
  }

  /** Splitting at the first space recovers exactly the head and tail a line was built from. */
  lemma {:induction false} SplitAtSpaceUnique(head: string, tail: Option<string>)
    requires ' ' !in head
    ensures SplitAtSpace(if tail.Some? then head + " " + tail.value else head) == Split(head, tail)
    decreases |head|
  {
    var s := if tail.Some? then head + " " + tail.value else head;
    if head != [] {
      assert s[0] == head[0] && s[1..] == if tail.Some? then head[1..] + " " + tail.value else head[1..];
      SplitAtSpaceUnique(head[1..], tail);
      assert [head[0]] + head[1..] == head;
    } else if tail.Some? {
      assert s[1..] == tail.value;
    }
  }

  /** A reply line, without its newline, splits back into its keyword and its text. */
  lemma {:induction false} RepliesSplit(msg: string)
    ensures var i := Info(msg); SplitAtSpace(i[..|i| - 1]) == Split("INFO", Some(msg))
    ensures var e := Err(msg); SplitAtSpace(e[..|e| - 1]) == Split("ERR", Some(msg))
  {
    var i := Info(msg);
    assert i[..|i| - 1] == "INFO" + " " + msg;
    SplitAtSpaceUnique("INFO", Some(msg));
    var e := Err(msg);
    assert e[..|e| - 1] == "ERR" + " " + msg;
    SplitAtSpaceUnique("ERR", Some(msg));
  }

  /**
   * A relayed line names its sender and its text; splitting twice recovers
   * both when the sender's name holds no space.
   */
  lemma {:induction false} FromLineSplits(from: string, msg: string)
    requires ' ' !in from
    ensures var f := FromLine(from, msg);
      && SplitAtSpace(f[..|f| - 1]) == Split("FROM", Some(from + " " + msg))
      && SplitAtSpace(from + " " + msg) == Split(from, Some(msg))
  {
    var f := FromLine(from, msg);
    assert f[..|f| - 1] == "FROM" + " " + (from + " " + msg);
    SplitAtSpaceUnique("FROM", Some(from + " " + msg));
    SplitAtSpaceUnique(from, Some(msg));
  }

  /** Usernames may hold spaces, and then two different relays can produce the same line. */
  lemma FromLineAmbiguous()
    ensures FromLine("bob smith", "hi") == FromLine("bob", "smith hi")
  {
  }

  /** The three kinds of server line never coincide: their first letters differ. */
  lemma ReplyKindsDistinct(a: string, b: string, from: string)
    ensures Info(a) != Err(b)
    ensures Info(a) != FromLine(from, b)
    ensures Err(a) != FromLine(from, b)
  {
    assert Info(a)[0] == 'I' && Err(b)[0] == 'E' && FromLine(from, b)[0] == 'F';
    assert Err(a)[0] == 'E';
  }

  /** Cutting one trailing whitespace character off a string does not change its trimmed form. */
  lemma TrimEndDropsWhitespace(s: string, c: char)
    requires IsWhitespace(c)
    ensures TrimEnd(s + [c]) == TrimEnd(s)
  {
    assert (s + [c])[..|s|] == s;
  }

  /**
   * The server reads a client's `JOIN <username>` line back as the JOIN
   * keyword and that username, provided the name does not end in whitespace
   * (the server's `trim_end` would cut it off) and holds no newline (the
   * server's `read_line` would stop at it, so the line is one read).
   */
  lemma {:induction false} JoinLineParses(username: string)
    requires username != [] && Trimmed(username) && '\n' !in username
    ensures OneLine(JoinLine(username))
    ensures SplitAtSpace(TrimEnd(JoinLine(username))) == Split(CmdJoin, Some(username))
  {
    assert forall k :: 0 <= k < |JoinLine(username)| - 1 ==> JoinLine(username)[k] != '\n' by {
      forall k | 0 <= k < |JoinLine(username)| - 1 ensures JoinLine(username)[k] != '\n' {
        if k >= 5 { assert JoinLine(username)[k] == username[k - 5]; }
      }
    }
    var line := CmdJoin + " " + username;
    assert JoinLine(username) == line + ['\n'];
    TrimEndDropsWhitespace(line, '\n');
    TrimEndUnique(line, line);
    SplitAtSpaceUnique(CmdJoin, Some(username));
  }

  /**
   * The server reads a client's `MSG <text>` line back as the MSG keyword
   * and that text (an empty text loses its space to `trim_end` and comes
   * back through `unwrap_or("")`). The client's text is a trimmed line of
   * its own input, so it holds no newline and the line is one read.
   */
  lemma {:induction false} MsgLineParses(text: string)
    requires Trimmed(text) && '\n' !in text
    ensures OneLine(MsgLine(text))
    ensures var p := SplitAtSpace(TrimEnd(MsgLine(text))); p.head == CmdMsg && p.tail.GetOr("") == text
  {
    assert forall k :: 0 <= k < |MsgLine(text)| - 1 ==> MsgLine(text)[k] != '\n' by {
      forall k | 0 <= k < |MsgLine(text)| - 1 ensures MsgLine(text)[k] != '\n' {
        if k >= 4 { assert MsgLine(text)[k] == text[k - 4]; }
      }
    }
    var line := CmdMsg + " " + text;
    assert TrimEnd(MsgLine(text)) == TrimEnd(line) by {
      assert MsgLine(text) == line + ['\n'];
      TrimEndDropsWhitespace(line, '\n');
    }
    if text == [] {
      assert TrimEnd(line) == CmdMsg by {
        assert line == CmdMsg + [' '];
        TrimEndDropsWhitespace(CmdMsg, ' ');
        TrimEndUnique(CmdMsg, CmdMsg);
      }
      SplitAtSpaceUnique(CmdMsg, None);
    } else {
      TrimEndUnique(line, line);
      SplitAtSpaceUnique(CmdMsg, Some(text));
    }
  }

  /** The server reads a client's `LEAVE` line back as the bare LEAVE keyword. */
  lemma {:induction false} LeaveLineParses()
    ensures OneLine(LeaveLine)
    ensures SplitAtSpace(TrimEnd(LeaveLine)) == Split(CmdLeave, None)
  {
    TrimEndDropsWhitespace(CmdLeave, '\n');
    TrimEndUnique(CmdLeave, CmdLeave);
    SplitAtSpaceUnique(CmdLeave, None);
  }
}
