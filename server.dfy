/**
  The server's per-connection bookkeeping, with the operating system taken out.
  A connection is a socket descriptor mapped to a read buffer (bytes received
  but not yet framed into lines) and a write buffer (replies not yet sent).
  The table holds at most USER_AMOUNT connections. What `recv` delivered and
  what `send` reports become parameters; kqueue registration is not modelled
  except where its failure tears a connection down.
 */
module Server {
  import opened Wrappers
  import opened StorageEngine
  import opened Parser
  import opened CommandHandler

  /** Capacity of the connection table. */
  const USER_AMOUNT: nat := 256

  const WELCOME: string := "Welcome\n"
  const INVALID_REPLY: string := "ERROR: invalid command\n"

  datatype Connection = Connection(readBuffer: string, writeBuffer: string)

  // ---------------------------------------------------------------------------
  // Framing: splitting a read buffer into complete lines
  // ---------------------------------------------------------------------------

  /** The position of the first newline in `s`, or None when there is none. */
  function FindNewline(s: string): (r: Option<nat>)
    ensures r.Some? ==> r.value < |s| && s[r.value] == '\n'
  {
    if s == [] then None
    else if s[0] == '\n' then Some(0)
    else match FindNewline(s[1..])
      case None => None
      case Some(p) => Some(p + 1)
  }

  /** No newline comes before the one FindNewline reports, and none at all when it reports none. */
  lemma {:induction false} FindNewlineFirst(s: string)
    ensures forall i :: 0 <= i < |s| && (FindNewline(s).None? || i < FindNewline(s).value) ==> s[i] != '\n'
    decreases |s|
  {
    if s != [] && s[0] != '\n' {
      FindNewlineFirst(s[1..]);
      forall i | 1 <= i < |s| ensures s[i] == s[1..][i - 1] {}
    }
  }

  /** The complete lines at the front of `buf` (without their newlines), and what is left after the last newline. */
  function Frame(buf: string): (seq<string>, string)
    decreases |buf|
  {
    match FindNewline(buf)
    case None => ([], buf)
    case Some(pos) =>
      var tail := Frame(buf[pos + 1..]);
      ([buf[..pos]] + tail.0, tail.1)
  }

  /** Each line followed by a newline, one after another. */
  function Unlines(lines: seq<string>): string
  {
    if lines == [] then "" else lines[0] + "\n" + Unlines(lines[1..])
  }

  predicate NoNewline(s: string)
  {
    forall i :: 0 <= i < |s| ==> s[i] != '\n'
  }

  predicate AllLines(lines: seq<string>)
  {
    forall j :: 0 <= j < |lines| ==> NoNewline(lines[j])
  }

  lemma {:induction false} UnlinesAppend(a: seq<string>, b: seq<string>)
    ensures Unlines(a + b) == Unlines(a) + Unlines(b)
    decreases |a|
  {
    if a == [] {
      assert a + b == b;
    } else {
      assert (a + b)[0] == a[0];
      assert (a + b)[1..] == a[1..] + b;
      UnlinesAppend(a[1..], b);
      calc {
        Unlines(a + b);
        a[0] + "\n" + Unlines(a[1..] + b);
        a[0] + "\n" + (Unlines(a[1..]) + Unlines(b));
        (a[0] + "\n" + Unlines(a[1..])) + Unlines(b);
      }
    }
  }

  lemma SplitAtNewline(buf: string, pos: nat)
    requires pos < |buf| && buf[pos] == '\n'
    ensures buf == buf[..pos] + "\n" + buf[pos + 1..]
  {
    assert buf == buf[..pos] + [buf[pos]] + buf[pos + 1..];
  }

  /** Framing loses and invents nothing: the lines, each with its newline, then the rest, are the buffer. */
  lemma {:induction false} FrameConserves(buf: string)
    ensures Unlines(Frame(buf).0) + Frame(buf).1 == buf
    decreases |buf|
  {
    var found := FindNewline(buf);
    if found.Some? {
      var pos := found.value;
      var line := buf[..pos];
      var tail := Frame(buf[pos + 1..]);
      FrameConserves(buf[pos + 1..]);
      assert Frame(buf) == ([line] + tail.0, tail.1);
      assert ([line] + tail.0)[1..] == tail.0;
      assert Unlines(Frame(buf).0) == line + "\n" + Unlines(tail.0);
      SplitAtNewline(buf, pos);
    }
  }

  /** No extracted line holds a newline, and neither does what is left in the buffer. */
  lemma {:induction false} FrameSplitsAtNewlines(buf: string)
    ensures AllLines(Frame(buf).0)
    ensures NoNewline(Frame(buf).1)
    decreases |buf|
  {
    FindNewlineFirst(buf);
    match FindNewline(buf)
    case None =>
    case Some(pos) =>
      FrameSplitsAtNewlines(buf[pos + 1..]);
      var lines := Frame(buf).0;
      assert lines == [buf[..pos]] + Frame(buf[pos + 1..]).0;
      forall j | 0 <= j < |lines| ensures NoNewline(lines[j]) {
        if j > 0 {
          assert lines[j] == Frame(buf[pos + 1..]).0[j - 1];
        }
      }
  }

  /** A line followed by a newline frames as that line, then whatever follows frames on its own. */
  lemma FrameLineThen(line: string, more: string)
    requires NoNewline(line)
    ensures Frame(line + "\n" + more) == ([line] + Frame(more).0, Frame(more).1)
  {
    var s := line + "\n" + more;
    assert s[|line|] == '\n';
    FindNewlineFirst(s);
    assert FindNewline(s) == Some(|line|);
    assert s[..|line|] == line;
    assert s[|line| + 1..] == more;
  }

  /** One turn of the read handler's loop: the line before the first newline is cut off the front. */
  lemma FrameNextLine(done: seq<string>, buf: string)
    requires FindNewline(buf).Some?
    ensures var pos := FindNewline(buf).value;
            done + Frame(buf).0 == (done + [buf[..pos]]) + Frame(buf[pos + 1..]).0 &&
            Frame(buf).1 == Frame(buf[pos + 1..]).1
  {
    var pos := FindNewline(buf).value;
    Assoc(done, [buf[..pos]], Frame(buf[pos + 1..]).0);
  }

  /** The read handler's loop stops when no newline is left: nothing more is framed. */
  lemma FrameNoLine(done: seq<string>, buf: string)
    requires FindNewline(buf).None?
    ensures done + Frame(buf).0 == done && Frame(buf).1 == buf
  {
    assert done + [] == done;
  }

  /** Framing inverts Unlines: lines without newlines, joined and followed by a newline-free rest, frame back to themselves. */
  lemma {:induction false} FrameUnlines(lines: seq<string>, rest: string)
    requires AllLines(lines) && NoNewline(rest)
    ensures Frame(Unlines(lines) + rest) == (lines, rest)
    decreases |lines|
  {
    if lines == [] {
      assert Unlines(lines) + rest == rest;
      assert FindNewline(rest).None?;
    } else {
      var more := Unlines(lines[1..]) + rest;
      assert Unlines(lines) + rest == lines[0] + "\n" + more;
      assert AllLines(lines[1..]) by {
        forall j | 0 <= j < |lines[1..]| ensures NoNewline(lines[1..][j]) {
          assert lines[1..][j] == lines[j + 1];
        }
      }
      FrameUnlines(lines[1..], rest);
      FrameLineThen(lines[0], more);
      assert [lines[0]] + lines[1..] == lines;
    }
  }

  lemma AllLinesAppend(a: seq<string>, b: seq<string>)
    requires AllLines(a) && AllLines(b)
    ensures AllLines(a + b)
  {
    forall j | 0 <= j < |a + b| ensures NoNewline((a + b)[j]) {
      if j >= |a| {
        assert (a + b)[j] == b[j - |a|];
      } else {
        assert (a + b)[j] == a[j];
      }
    }
  }

  lemma Regroup(u: string, r: string, y: string, v: string, w: string)
    requires r + y == v + w
    ensures (u + r) + y == (u + v) + w
  {
    assert (u + r) + y == u + (r + y);
    assert u + (v + w) == (u + v) + w;
  }

  /** Framing in two steps, carrying the leftover of the first into the second, frames the same lines as one step. */
  lemma FrameSplit(x: string, y: string)
    ensures Frame(x + y) == (Frame(x).0 + Frame(Frame(x).1 + y).0, Frame(Frame(x).1 + y).1)
  {
    var f1 := Frame(x);
    var f2 := Frame(f1.1 + y);
    FrameConserves(x);
    FrameConserves(f1.1 + y);
    FrameSplitsAtNewlines(x);
    FrameSplitsAtNewlines(f1.1 + y);
    AllLinesAppend(f1.0, f2.0);
    UnlinesAppend(f1.0, f2.0);
    Regroup(Unlines(f1.0), f1.1, y, Unlines(f2.0), f2.1);
    FrameUnlines(f1.0 + f2.0, f2.1);
  }

  // ---------------------------------------------------------------------------
  // Replies to framed lines
  // ---------------------------------------------------------------------------

  /** What one framed line adds to the write buffer, and the store afterwards: nothing for an
      empty line, the invalid-command error when the line does not parse, else the handler's reply. */
  function Answer(kv: Store, line: string): (string, Store)
  {
    if line == [] then ("", kv)
    else match ParseLine(line)
      case None => (INVALID_REPLY, kv)
      case Some(cmd) => Dispatch(kv, cmd)
  }

  /** Answering `lines` one after another with `answer`, threading the store through: the replies
      in arrival order, and the store afterwards. */
  function AnswerAll(answer: (Store, string) -> (string, Store), kv: Store, lines: seq<string>): (string, Store)
    decreases |lines|
  {
    if lines == [] then ("", kv)
    else
      var before := AnswerAll(answer, kv, lines[..|lines| - 1]);
      var last := answer(before.1, lines[|lines| - 1]);
      (before.0 + last.0, last.1)
  }

  /** What the read handler appends to the write buffer for `lines`, and the store afterwards. */
  function Respond(kv: Store, lines: seq<string>): (string, Store)
  {
    AnswerAll(Answer, kv, lines)
  }

  /** Lines that carry a command, or at least something that is not empty. */
  function NonEmptyCount(lines: seq<string>): (n: nat)
    ensures n <= |lines|
    decreases |lines|
  {
    if lines == [] then 0
    else NonEmptyCount(lines[..|lines| - 1]) + (if lines[|lines| - 1] == [] then 0 else 1)
  }

  function Newlines(s: string): nat
    decreases |s|
  {
    if s == [] then 0 else Newlines(s[..|s| - 1]) + (if s[|s| - 1] == '\n' then 1 else 0)
  }

  lemma {:induction false} NewlinesAppend(a: string, b: string)
    ensures Newlines(a + b) == Newlines(a) + Newlines(b)
    decreases |b|
  {
    if b == [] {
      assert a + b == a;
    } else {
      assert (a + b)[..|a + b| - 1] == a + b[..|b| - 1];
      NewlinesAppend(a, b[..|b| - 1]);
    }
  }

  lemma {:induction false} NewlinesOfNoNewline(s: string)
    requires NoNewline(s)
    ensures Newlines(s) == 0
    decreases |s|
  {
    if s != [] {
      NewlinesOfNoNewline(s[..|s| - 1]);
    }
  }

  lemma NewlinesOfOneLine(s: string)
    requires OneLine(s)
    ensures Newlines(s) == 1
  {
    NewlinesOfNoNewline(s[..|s| - 1]);
  }

  /** An empty line is skipped; a non-empty line that holds only whitespace gets the invalid-command error. */
  lemma AnswerSkipsOrRejects(kv: Store, line: string)
    ensures line == [] ==> Answer(kv, line) == ("", kv)
    ensures line != [] && Blank(line) ==> Answer(kv, line) == (INVALID_REPLY, kv)
    ensures !Blank(line) ==> ParseLine(line).Some? && Answer(kv, line) == Dispatch(kv, ParseLine(line).value)
  {
    ParseNoneIffBlank(line);
  }

  /** A non-empty line gets exactly one reply line, and the store stays free of newlines. */
  lemma AnswerOneLine(kv: Store, line: string)
    requires LineSafe(kv) && line != []
    ensures OneLine(Answer(kv, line).0)
    ensures LineSafe(Answer(kv, line).1)
  {
    match ParseLine(line)
    case None =>
      LineOf("ERROR: invalid command");
      assert "ERROR: invalid command" + "\n" == INVALID_REPLY;
    case Some(cmd) =>
      ParsedAreWords(line);
      RepliesAreOneLine(kv, cmd);
      ParsedCommandsKeepLineSafe(kv, cmd);
  }

  /** One reply per non-empty line: the replies hold exactly as many lines as there were non-empty lines. */
  lemma {:induction false} OneReplyPerLine(kv: Store, lines: seq<string>)
    requires LineSafe(kv)
    ensures Newlines(Respond(kv, lines).0) == NonEmptyCount(lines)
    ensures LineSafe(Respond(kv, lines).1)
    decreases |lines|
  {
    if lines != [] {
      var init := lines[..|lines| - 1];
      var line := lines[|lines| - 1];
      OneReplyPerLine(kv, init);
      var before := Respond(kv, init);
      NewlinesAppend(before.0, Answer(before.1, line).0);
      if line != [] {
        AnswerOneLine(before.1, line);
        NewlinesOfOneLine(Answer(before.1, line).0);
      }
    }
  }

  /** Answering one more line after a batch. */
  lemma AnswerAllSnoc(answer: (Store, string) -> (string, Store), kv: Store, lines: seq<string>, line: string)
    ensures AnswerAll(answer, kv, lines + [line]) ==
      (AnswerAll(answer, kv, lines).0 + answer(AnswerAll(answer, kv, lines).1, line).0,
       answer(AnswerAll(answer, kv, lines).1, line).1)
  {
    assert (lines + [line])[..|lines|] == lines;
  }

  lemma SplitLast(a: seq<string>, b: seq<string>)
    requires b != []
    ensures a + b == (a + b[..|b| - 1]) + [b[|b| - 1]]
  {
    assert b == b[..|b| - 1] + [b[|b| - 1]];
  }

  /** Answering one batch of lines and then another is answering both batches at once. */
  lemma {:induction false} AnswerAllSplit(answer: (Store, string) -> (string, Store), kv: Store, a: seq<string>, b: seq<string>)
    ensures var first := AnswerAll(answer, kv, a);
            var second := AnswerAll(answer, first.1, b);
            AnswerAll(answer, kv, a + b) == (first.0 + second.0, second.1)
    decreases |b|
  {
    var first := AnswerAll(answer, kv, a);
    if b == [] {
      assert a + b == a;
      assert first.0 + "" == first.0;
    } else {
      var init, line := b[..|b| - 1], b[|b| - 1];
      SplitLast(a, b);
      SplitLast([], b);
      AnswerAllSplit(answer, kv, a, init);
      AnswerAllSnoc(answer, kv, a + init, line);
      AnswerAllSnoc(answer, first.1, init, line);
      var middle := AnswerAll(answer, first.1, init);
      var last := answer(middle.1, line);
      assert (first.0 + middle.0) + last.0 == first.0 + (middle.0 + last.0);
    }
  }

  /** What a read of `received` does to a connection's buffers and the store, when each framed line
      is answered with `answer`; the read handler uses Answer. */
  function Serve(answer: (Store, string) -> (string, Store), kv: Store, conn: Connection, received: string): (Connection, Store)
  {
    var f := Frame(conn.readBuffer + received);
    var out := AnswerAll(answer, kv, f.0);
    (Connection(f.1, conn.writeBuffer + out.0), out.1)
  }

  /** How the bytes are cut into reads does not matter: two reads leave the same buffers and store as one read of both. */
  lemma ChunkingIrrelevant(answer: (Store, string) -> (string, Store), kv: Store, conn: Connection, x: string, y: string)
    ensures var first := Serve(answer, kv, conn, x);
            Serve(answer, first.1, first.0, y) == Serve(answer, kv, conn, x + y)
  {
    var rb, wb := conn.readBuffer, conn.writeBuffer;
    Assoc(rb, x, y);
    FrameSplit(rb + x, y);
    var f1 := Frame(rb + x);
    var f2 := Frame(f1.1 + y);
    AnswerAllSplit(answer, kv, f1.0, f2.0);
    var out1 := AnswerAll(answer, kv, f1.0);
    var out2 := AnswerAll(answer, out1.1, f2.0);
    Assoc(wb, out1.0, out2.0);
  }

  // ---------------------------------------------------------------------------
  // The server object
  // ---------------------------------------------------------------------------

  class DatabaseServer {
    var users: map<int, Connection>
    const handler: CommandHandler

    /** The table respects its capacity and holds only valid descriptors. */
    ghost predicate Valid()
      reads this
    {
      |users| <= USER_AMOUNT && forall fd :: fd in users ==> fd >= 1
    }

    constructor()
      ensures Valid() && users == map[]
      ensures fresh(handler) && fresh(handler.storage) && handler.storage.kv == map[]
    {
      var storage := new Storage();
      handler := new CommandHandler(storage);
      users := map[];
    }

    /** conn_add: a descriptor below 1, or a full table, is refused with -1; otherwise the descriptor
        gets empty buffers unless it is already present, which keeps its entry (emplace), and 0 is returned. */
    method ConnAdd(fd: int) returns (r: int)
      requires Valid()
      modifies this
      ensures Valid()
      ensures r == (if fd < 1 || |old(users)| >= USER_AMOUNT then -1 else 0)
      ensures r == -1 ==> users == old(users)
      ensures r == 0 ==> users == if fd in old(users) then old(users) else old(users)[fd := Connection("", "")]
    {
      if fd < 1 {
        return -1;
      }
      if |users| >= USER_AMOUNT {
        return -1;
      }
      if fd !in users {
        users := users[fd := Connection("", "")];
      }
      r := 0;
    }

    /** conn_delete: a descriptor below 1 or not in the table gives -1 and changes nothing;
        otherwise exactly that entry goes, and the result of closing it (taken as 0) is returned. */
    method ConnDelete(fd: int) returns (r: int)
      requires Valid()
      modifies this
      ensures Valid()
      ensures r == (if fd >= 1 && fd in old(users) then 0 else -1)
      ensures users == old(users) - {fd}
    {
      if fd < 1 {
        return -1;
      }
      if fd !in users {
        return -1;
      }
      users := users - {fd};
      r := 0;
    }

    /** Accepting `fd`: a table entry is added, its write buffer is set to the welcome message, and
        the connection is deleted again when registering it for events (`registered`) fails. */
    method Accept(fd: int, registered: bool)
      requires Valid()
      modifies this
      ensures Valid()
      ensures fd < 1 || |old(users)| >= USER_AMOUNT ==> users == old(users)
      ensures fd >= 1 && |old(users)| < USER_AMOUNT && registered ==>
        fd in users && users == old(users)[fd := Connection(if fd in old(users) then old(users)[fd].readBuffer else "", WELCOME)]
      ensures fd >= 1 && |old(users)| < USER_AMOUNT && !registered ==> users == old(users) - {fd}
    {
      var added := ConnAdd(fd);
      if added == 0 {
        users := users[fd := users[fd].(writeBuffer := WELCOME)];
        if !registered {
          var _ := ConnDelete(fd);
        }
      }
    }

    /** The write handler after `send` reported `sent` bytes: a descriptor not in the table is ignored;
        a failed send deletes the connection; otherwise the sent bytes leave the front of the write buffer.
        Once the write buffer is empty, write interest is disabled; `disabled` tells whether that
        `kevent` call succeeded, and when it did not the connection is deleted. */
    method HandleClientWrite(fd: int, sent: SendResult, disabled: bool)
      requires Valid()
      modifies this
      ensures Valid()
      ensures fd !in old(users) || sent.WouldBlock? ==> users == old(users)
      ensures fd in old(users) && sent.Failed? ==> users == old(users) - {fd}
      ensures fd in old(users) && sent.Sent? ==>
        var left := Unsent(old(users)[fd].writeBuffer, sent.count);
        users == if left == "" && !disabled then old(users) - {fd}
                 else old(users)[fd := old(users)[fd].(writeBuffer := left)]
    {
      if fd !in users {
        return;
      }
      match sent {
      case WouldBlock =>
      case Failed =>
        var _ := ConnDelete(fd);
      case Sent(n) =>
        var wb := users[fd].writeBuffer;
        if n < |wb| {
          wb := wb[n..];
        } else {
          wb := "";
        }
        users := users[fd := users[fd].(writeBuffer := wb)];
        if wb == "" && !disabled {
          var _ := ConnDelete(fd);
        }
      }
    }

    /** The read handler after `recv` delivered `received`: a descriptor not in the table is ignored;
        an empty read (the peer closed) deletes the connection; otherwise the bytes are appended to the
        read buffer and every complete line is cut off it in order and answered into the write buffer. */
    method HandleClientRead(fd: int, received: string)
      requires Valid()
      modifies this, handler.storage
      ensures Valid()
      ensures fd !in old(users) ==> users == old(users) && handler.storage.kv == old(handler.storage.kv)
      ensures fd in old(users) && received == [] ==>
        users == old(users) - {fd} && handler.storage.kv == old(handler.storage.kv)
      ensures fd in old(users) && received != [] ==>
        var served := Serve(Answer, old(handler.storage.kv), old(users)[fd], received);
        users == old(users)[fd := served.0] && handler.storage.kv == served.1
    {
      if fd !in users {
        return;
      }
      if received == [] {
        var _ := ConnDelete(fd);
        return;
      }
      var conn := users[fd];
      conn := conn.(readBuffer := conn.readBuffer + received);
      ghost var start := conn.readBuffer;
      ghost var kv0 := handler.storage.kv;
      ghost var done: seq<string> := [];
      assert done + Frame(start).0 == Frame(start).0;
      while true
        invariant users == old(users)
        invariant Frame(start) == (done + Frame(conn.readBuffer).0, Frame(conn.readBuffer).1)
        invariant conn.writeBuffer == old(users)[fd].writeBuffer + Respond(kv0, done).0
        invariant handler.storage.kv == Respond(kv0, done).1
        decreases |conn.readBuffer|
      {
        var rb := conn.readBuffer;
        var pos := FindNewline(rb);
        if pos.None? {
          FrameNoLine(done, rb);
          assert users[fd := conn].Keys == users.Keys;
          users := users[fd := conn];
          return;
        }
        var command := rb[..pos.value];
        conn := conn.(readBuffer := rb[pos.value + 1..]);
        FrameNextLine(done, rb);
        AnswerAllSnoc(Answer, kv0, done, command);
        Assoc(old(users)[fd].writeBuffer, Respond(kv0, done).0, Answer(Respond(kv0, done).1, command).0);
        done := done + [command];
        var response := AnswerLine(command);
        conn := conn.(writeBuffer := conn.writeBuffer + response);
      }
    }

    /** One line cut off the read buffer: an empty line is skipped (its answer is empty); otherwise the
        line is parsed and handled, or answered as an invalid command when it holds no token. */
    method AnswerLine(command: string) returns (response: string)
      modifies handler.storage
      ensures (response, handler.storage.kv) == Answer(old(handler.storage.kv), command)
    {
      if command == [] {
        return "";
      }
      var parsed := Parse(command);
      if parsed.Some? {
        response := handler.Handle(parsed.value);
      } else {
        response := INVALID_REPLY;
      }
    }
  }

  /** What `send` reported: a byte count, a full socket buffer, or an error. */
  datatype SendResult = Sent(count: nat) | WouldBlock | Failed

  /** The write buffer left after `sent` bytes of it went out. */
  function Unsent(buffer: string, sent: nat): (r: string)
    ensures sent <= |buffer| ==> buffer == buffer[..sent] + r
    ensures sent >= |buffer| ==> r == ""
  {
    if sent < |buffer| then buffer[sent..] else ""
  }
}
