/** socket_readline on its real state: a socket with a list of buffered lines. */
module SocketReader {
  import opened Bytes
  import opened Lines
  import opened Lists
  import opened Shapes
  import opened Framing
  import opened Chunking

  /** Append text to the last value of a list, in place. */
  method ExtendTail(buf: List, text: Text)
    requires buf.Chain() && buf.tail != null
    modifies buf.tail`value
    ensures buf.Chain() && buf.View() == Extended(old(buf.View()), text)
  {
    ghost var w := Extended(buf.View(), text).values;
    buf.tail.value := buf.tail.value + text;
    buf.Revalued(w);
  }

  function Extended(s: Shape, text: Text): Shape
    requires s.values != []
  {
    var n := |s.values|;
    s.(values := s.values[n - 1 := s.values[n - 1] + text])
  }

  /** Move the first line of `tok` behind the last line of `buf`, which lacks its end. */
  method JoinFragment(buf: List, tok: List)
    requires buf.Chain() && buf.tail != null && tok.Chain() && tok.spine != [] && tok != buf
    requires buf.Apart(tok) && tok.Apart(buf)
    modifies buf.tail`value, tok, tok.spine
    ensures buf.Chain() && buf.View() == Extended(old(buf.View()), old(tok.View().values[0]))
    ensures tok.Chain() && tok.spine == old(tok.spine[1..]) && tok.View() == Deleted(old(tok.View()), 0)
  {
    ghost var t := tok.View();
    ExtendTail(buf, tok.head.value);
    assert tok.Chain() && tok.View() == t;
    var _ := tok.Shift();
    assert buf.Chain();
  }

  /** Append the new lines to the buffer and take its first line. */
  method MergeAndShift(buf: List, tok: List) returns (first: Option<Text>)
    requires buf.Chain() && tok.Chain() && tok != buf && buf.Apart(tok)
    requires (buf.spine == [] || buf.tail != null) && (buf.spine != [] || tok.spine != [])
    modifies buf, buf.spine, tok, tok.spine
    ensures var m := Merged(old(buf.View()), old(tok.View()));
            && m.values != [] && |m.values| == |m.back|
            && first == Some(m.values[0]) && buf.View() == Deleted(m, 0)
    ensures buf.Chain() && buf.spine == (old(buf.spine) + old(tok.spine))[1..]
  {
    buf.Merge(tok);
    first := buf.Shift();
  }

  /** The buffer with new lines behind it; the first of them may complete a fragment. */
  function Combined(v: Shape, tok: Shape, fragmented: bool): Shape
    requires tok.values != [] && |tok.values| == |tok.back| && (fragmented ==> v.values != [])
  {
    if fragmented then Merged(Extended(v, tok.values[0]), Deleted(tok, 0)) else Merged(v, tok)
  }

  /** Put the new lines into the buffer and take its first line. A fragment without its node
      is a logic error. */
  method FoldIn(buf: List, tok: List, fragmented: bool) returns (first: Option<Text>)
    requires buf.Chain() && tok.Chain() && tok != buf && buf.Apart(tok) && tok.Apart(buf)
    requires tok.spine != [] && (fragmented || buf.spine == [])
    modifies buf, buf.spine, tok, tok.spine
    ensures buf.Chain()
    ensures forall i :: 0 <= i < |buf.spine| ==> buf.spine[i] in old(buf.spine) || buf.spine[i] in old(tok.spine)
    ensures fragmented && old(buf.tail) == null ==> first == None && buf.View() == old(buf.View())
    ensures !(fragmented && old(buf.tail) == null) ==>
              var m := Combined(old(buf.View()), old(tok.View()), fragmented);
              && m.values != [] && |m.values| == |m.back|
              && first == Some(m.values[0]) && buf.View() == Deleted(m, 0)
  {
    if fragmented {
      if buf.tail == null || tok.head == null {
        return None;
      }
      JoinFragment(buf, tok);
    }
    first := MergeAndShift(buf, tok);
  }

  /** What split, join, merge and shift make of the buffer is what Accept says. */
  lemma ShapesAccept(v: Shape, c: Conn, line: Text, connected: bool)
    requires Proper(v) && c.buf == v.values && c.tailed == v.tailed && line != []
    requires if c.fragmented then c.buf != [] && c.tailed else c.buf == []
    ensures Split(line, LF) != []
    ensures var m := Combined(v, ShapeOf(Split(line, LF)), c.fragmented);
            && |m.values| == |m.back| && m.values != []
            && Accept(c, line, connected) ==
               (Line(m.values[0]), Conn(Deleted(m, 0).values, Deleted(m, 0).tailed, !EndsWith(line, LF), connected))
  {
    SplitPieces(line);
    var tok := Split(line, LF);
    DropFirst(tok);
    var m := Combined(v, ShapeOf(tok), c.fragmented);
    DropFirst(m.values);
    assert [] + tok == tok;
  }

  /** A fragment without its node. */
  lemma LostFragment(c: Conn, line: Text, connected: bool)
    requires line != [] && c.fragmented && (c.buf == [] || !c.tailed) && c.connected == connected
    ensures Accept(c, line, connected) == (LogicError, c)
  {
  }

  /** The list of the lines in the text. */
  method SplitLines(line: Text) returns (tok: List)
    requires line != []
    ensures fresh(tok) && tok.Chain() && tok.View() == ShapeOf(Split(line, LF)) && tok.spine != []
    ensures forall i :: 0 <= i < |tok.spine| ==> fresh(tok.spine[i])
  {
    tok := new List();
    StrSplit(tok, line, LF);
    SplitPieces(line);
    assert |tok.View().values| == |tok.spine|;
  }

  /** The reply to a read loop that ended this way. */
  lemma ReplyTo(c: Conn, feed: seq<Read>, g: Gathered, connected: bool, rest: seq<Read>)
    requires c.buf == [] || c.fragmented
    requires Gather([], c.connected, feed) == (g, connected, rest)
    ensures match g
            case Quiet => Framing.Readline(c, feed) == (Timeout, c, rest) && connected == c.connected
            case Broken => Framing.Readline(c, feed) == (Failed, c.(connected := connected), rest)
            case Got(line) =>
              var (reply, c') := Accept(c.(connected := connected), line, connected);
              line != [] && Framing.Readline(c, feed) == (reply, c', rest)
  {
  }

  class Socket {
    var readBuf: List
    var fragmented: bool
    var connected: bool
    var timeout: bool
    var input: seq<Read>  // what read(2) is going to return

    ghost predicate Valid()
      reads this, readBuf, readBuf.spine
    {
      readBuf.Chain()
    }

    ghost function State(): Conn
      reads this, readBuf, readBuf.spine
    {
      Conn(readBuf.View().values, readBuf.Tailed(), fragmented, connected)
    }

    constructor (input: seq<Read>)
      ensures Valid() && State() == START && this.input == input && !timeout && fresh(readBuf)
    {
      readBuf := new List();
      fragmented, connected, timeout := false, true, false;
      this.input := input;
    }

    /** read(2), which finds the end of the file when nothing else is left. */
    method ReadOnce() returns (r: Read)
      modifies `input
      ensures r == if old(input) == [] then Eof else old(input[0])
      ensures input == if old(input) == [] then [] else old(input[1..])
    {
      if input == [] {
        r := Eof;
      } else {
        r := input[0];
        input := input[1..];
      }
    }

    /** The read loop: until the text holds a newline, or the connection ends. */
    method ReadLoop() returns (g: Gathered)
      modifies `input, `connected, `timeout
      ensures (g, connected, input) == Gather([], old(connected), old(input))
      ensures timeout == (old(timeout) || g == Quiet)
    {
      var line: Text := [];
      while true
        invariant Gather(line, connected, input) == Gather([], old(connected), old(input))
        invariant timeout == old(timeout) && (line != [] ==> connected)
        decreases |input|, connected
      {
        var r := ReadOnce();
        match r {
          case Intr => continue;
          case Again =>
            timeout := true;
            return Quiet;
          case Error => return Broken;
          case BadFd => connected := false;
          case Eof => connected := false;
          case Data(bytes) => line := line + CString(bytes);
        }
        if line == [] {
          if connected {
            continue;
          }
          return Broken;
        }
        if connected && LF !in line {
          continue;
        }
        return Got(line);
      }
    }

    /** Split the text, put its lines into the buffer, and take the first line out. */
    method PutLines(line: Text) returns (first: Option<Text>)
      requires Valid() && line != [] && (fragmented || readBuf.spine == [])
      modifies readBuf, readBuf.spine
      ensures Valid()
      ensures forall i :: 0 <= i < |readBuf.spine| ==> readBuf.spine[i] in old(readBuf.spine) || fresh(readBuf.spine[i])
      ensures fragmented && old(readBuf.tail) == null ==> first == None && readBuf.View() == old(readBuf.View())
      ensures !(fragmented && old(readBuf.tail) == null) ==>
                && Split(line, LF) != []
                && var m := Combined(old(readBuf.View()), ShapeOf(Split(line, LF)), fragmented);
                   && m.values != [] && |m.values| == |m.back|
                   && first == Some(m.values[0]) && readBuf.View() == Deleted(m, 0)
    {
      SplitPieces(line);
      var tok := SplitLines(line);
      readBuf.Untouched();
      first := FoldIn(readBuf, tok, fragmented);
    }

    /** The buffer's shape says what the reader's state is. */
    lemma StateOf(v: Shape)
      requires Valid() && readBuf.View() == v
      ensures State() == Conn(v.values, v.tailed, fragmented, connected)
    {
    }

    /** The same, said of the reader's state, of which the fragment bit is still to come. */
    method AcceptLines(line: Text) returns (first: Option<Text>)
      requires Valid() && line != [] && (fragmented || readBuf.spine == [])
      modifies readBuf, readBuf.spine
      ensures Valid()
      ensures forall i :: 0 <= i < |readBuf.spine| ==> readBuf.spine[i] in old(readBuf.spine) || fresh(readBuf.spine[i])
      ensures var (reply, c) := Framing.Accept(old(State()), line, connected);
              if first == None then reply == LogicError && c == State()
              else reply == Line(first.value) && c == State().(fragmented := !EndsWith(line, LF))
    {
      ghost var c, v := State(), readBuf.View();
      StateOf(v);
      if fragmented && readBuf.tail == null {
        LostFragment(c, line, connected);
        first := PutLines(line);
        StateOf(v);
      } else {
        ShapesAccept(v, c, line, connected);
        first := PutLines(line);
        StateOf(readBuf.View());
      }
    }

    /** The end of socket_readline, with the text it has gathered. */
    method TakeLine(line: Text) returns (reply: Reply)
      requires Valid() && line != [] && (fragmented || readBuf.spine == [])
      modifies `fragmented, readBuf, readBuf.spine
      ensures Valid() && (reply, State()) == Framing.Accept(old(State()), line, connected)
      ensures forall i :: 0 <= i < |readBuf.spine| ==> readBuf.spine[i] in old(readBuf.spine) || fresh(readBuf.spine[i])
    {
      var first := AcceptLines(line);
      if first == None {
        return LogicError;
      }
      ghost var c := State();
      fragmented := !EndsWith(line, LF);
      assert State() == c.(fragmented := fragmented);
      reply := Line(first.value);
    }

    /** Hand out a line that is already there. */
    method TakeBuffered() returns (reply: Reply)
      requires Valid() && readBuf.spine != [] && !fragmented
      modifies readBuf, readBuf.spine
      ensures Valid() && (reply, State(), input) == Framing.Readline(old(State()), input) && reply != Timeout
      ensures forall i :: 0 <= i < |readBuf.spine| ==> readBuf.spine[i] in old(readBuf.spine)
    {
      DropFirst(readBuf.View().values);
      var first := readBuf.Shift();
      reply := if first.Some? then Line(first.value) else Failed;
    }

    /** Read, and hand out the first line of what comes. */
    method ReadMore() returns (reply: Reply)
      requires Valid() && (fragmented || readBuf.spine == [])
      modifies this, readBuf, readBuf.spine
      ensures Valid() && readBuf == old(readBuf)
      ensures (reply, State(), input) == Framing.Readline(old(State()), old(input))
      ensures timeout == (old(timeout) || reply == Timeout)
      ensures forall i :: 0 <= i < |readBuf.spine| ==> readBuf.spine[i] in old(readBuf.spine) || fresh(readBuf.spine[i])
    {
      ghost var c, given := State(), input;
      var g := ReadLoop();
      ReplyTo(c, given, g, connected, input);
      assert State() == c.(connected := connected);
      match g
      case Quiet => reply := Timeout;
      case Broken => reply := Failed;
      case Got(line) => reply := TakeLine(line);
    }

    /** socket_readline. */
    method Readline() returns (reply: Reply)
      requires Valid()
      modifies this, readBuf, readBuf.spine
      ensures Valid() && readBuf == old(readBuf)
      ensures (reply, State(), input) == Framing.Readline(old(State()), old(input))
      ensures timeout == (old(timeout) || reply == Timeout)
      ensures forall i :: 0 <= i < |readBuf.spine| ==> readBuf.spine[i] in old(readBuf.spine) || fresh(readBuf.spine[i])
    {
      if readBuf.count > 0 && !fragmented {
        reply := TakeBuffered();
      } else {
        reply := ReadMore();
      }
    }
  }

  /** One call of a session. */
  lemma DrainOn(c: Conn, feed: seq<Read>, lines: seq<Text>)
    ensures var (reply, c', rest) := Framing.Readline(c, feed);
            var total := lines + Drain(c, feed).lines;
            match reply
            case Line(text) =>
              (lines + [text]) + Drain(c', rest).lines == total && (|rest| < |feed| || (rest == feed && |c'.buf| < |c.buf|))
            case Timeout => lines + Drain(c', rest).lines == total && |rest| < |feed|
            case _ => lines == total
  {
    var (reply, c', rest) := Framing.Readline(c, feed);
    if reply.Line? {
      assert Drain(c, feed).lines == [reply.text] + Drain(c', rest).lines;
      assert (lines + [reply.text]) + Drain(c', rest).lines == lines + ([reply.text] + Drain(c', rest).lines);
    }
  }

  /** Read a connection to its end, line by line. */
  method ReadAll(feed: seq<Read>) returns (lines: seq<Text>)
    ensures lines == Drain(START, feed).lines
    ensures Orderly(feed, false) && Framable(Stream(feed)) ==> lines == StreamLines(Stream(feed))
  {
    ghost var total := Drain(START, feed).lines;
    if Orderly(feed, false) && Framable(Stream(feed)) {
      AnyChunking(feed);
    }
    var sock := new Socket(feed);
    lines := [];
    assert [] + total == total;
    var reply := Timeout;
    while !reply.Failed? && !reply.LogicError?
      invariant sock.Valid() && fresh(sock) && fresh(sock.readBuf)
      invariant forall i :: 0 <= i < |sock.readBuf.spine| ==> fresh(sock.readBuf.spine[i])
      invariant if reply.Line? || reply.Timeout?
                then lines + Drain(sock.State(), sock.input).lines == total else lines == total
      decreases |sock.input|, |sock.State().buf|, reply.Line? || reply.Timeout?
    {
      DrainOn(sock.State(), sock.input, lines);
      reply := sock.Readline();
      if reply.Line? {
        lines := lines + [reply.text];
      }
    }
  }
}
