/** The buffered line reader socket_readline of socket.c, as a function of what read(2) returns. */
module Framing {
  import opened Bytes
  import opened Lines

  /** What one read(2) returns: bytes, end of file, or an errno. */
  datatype Read = Data(bytes: Text) | Eof | Again | Intr | BadFd | Error

  /** The input buffer, whether its tail pointer is in place, and the two status bits. */
  datatype Conn = Conn(buf: seq<Text>, tailed: bool, fragmented: bool, connected: bool)

  datatype Reply = Line(text: Text) | Timeout | Failed | LogicError

  const START := Conn([], true, false, true)

  /** How the read loop ends: with text, with EAGAIN, or with nothing. */
  datatype Gathered = Got(line: Text) | Quiet | Broken

  /** The read loop: read until the text gathered holds a newline or the connection ends.
      Reads beyond those given find the end of the file. */
  function Gather(line: Text, connected: bool, feed: seq<Read>): (r: (Gathered, bool, seq<Read>))
    ensures feed != [] ==> |r.2| < |feed|
    ensures feed == [] ==> r.2 == [] && (line == [] ==> r.0 == Broken) && r.0 != Quiet
    ensures r.0.Got? ==> r.0.line != []
    ensures r.0.Quiet? ==> r.1 == connected
    decreases |feed|
  {
    if feed == [] then (if line == [] then Broken else Got(line), false, [])
    else
      var rest := feed[1..];
      match feed[0]
      case Intr => Gather(line, connected, rest)
      case Again => (Quiet, connected, rest)
      case Error => (Broken, connected, rest)
      case Eof => (if line == [] then Broken else Got(line), false, rest)
      case BadFd => (if line == [] then Broken else Got(line), false, rest)
      case Data(bytes) =>
        var l := line + CString(bytes);
        if connected && LF !in l then Gather(l, connected, rest)
        else if l == [] then (Broken, false, rest)
        else (Got(l), connected, rest)
  }

  /** Merge gathered text into the buffer and hand out the first line. */
  function Accept(c: Conn, line: Text, connected: bool): (Reply, Conn)
    requires line != []
  {
    var tok, n := Split(line, LF), |c.buf|;
    if c.fragmented && (n == 0 || !c.tailed) then (LogicError, c.(connected := connected))
    else
      var buf := if c.fragmented then c.buf[n - 1 := c.buf[n - 1] + tok[0]] else c.buf;
      var more := if c.fragmented then tok[1..] else tok;
      var all := buf + more;
      (Line(all[0]), Conn(all[1..], more != [] || |all| == 1, !EndsWith(line, LF), connected))
  }

  function Readline(c: Conn, feed: seq<Read>): (Reply, Conn, seq<Read>) {
    if c.buf != [] && !c.fragmented then
      (Line(c.buf[0]), c.(buf := c.buf[1..], tailed := c.tailed || |c.buf| == 1), feed)
    else
      var (g, connected, rest) := Gather([], c.connected, feed);
      match g
      case Quiet => (Timeout, c, rest)
      case Broken => (Failed, c.(connected := connected), rest)
      case Got(line) =>
        var (reply, c') := Accept(c, line, connected);
        (reply, c', rest)
  }

  /** The lines handed out by repeated calls, up to the call that fails. */
  datatype Session = Session(lines: seq<Text>, end: Reply)

  function Drain(c: Conn, feed: seq<Read>): Session
    decreases |feed|, |c.buf|
  {
    var (reply, c', rest) := Readline(c, feed);
    match reply
    case Line(text) => var s := Drain(c', rest); s.(lines := [text] + s.lines)
    case Timeout => Drain(c', rest)
    case Failed => Session([], reply)
    case LogicError => Session([], reply)
  }

  function StripCR(s: Text): Text {
    if EndsWith(s, CR) then s[..|s| - 1] else s
  }

  function StripAll(v: seq<Text>): seq<Text> {
    seq(|v|, i requires 0 <= i < |v| => StripCR(v[i]))
  }

  function Last<T>(v: seq<T>): T
    requires v != []
  {
    v[|v| - 1]
  }

  function Init<T>(v: seq<T>): seq<T>
    requires v != []
  {
    v[..|v| - 1]
  }

  /** The text between newlines; nothing after the last newline is no piece. */
  function Pieces(s: Text): seq<Text> {
    var t := Tokens(s, LF);
    if Last(t) == [] then Init(t) else t
  }

  /** The lines of a stream, each without its LF or CRLF. */
  function StreamLines(s: Text): seq<Text> {
    StripAll(Pieces(s))
  }

  /** All the bytes of the reads. */
  function Stream(feed: seq<Read>): Text {
    if feed == [] then []
    else (if feed[0].Data? then feed[0].bytes else []) + Stream(feed[1..])
  }

  /** Reads that deliver a stream piece by piece until its end. Interrupted reads may come
      anywhere, a read that would block only while no part of a line is held back. */
  predicate Orderly(feed: seq<Read>, held: bool) {
    if feed == [] then true
    else
      match feed[0]
      case Intr => Orderly(feed[1..], held)
      case Again => !held && Orderly(feed[1..], false)
      case Data(bytes) => bytes != [] && NUL !in bytes && Orderly(feed[1..], LF !in bytes)
      case Eof => false
      case BadFd => false
      case Error => false
  }

  /** A carriage return stands only at the end of a line, but the first line may hold more of
      them as long as it does not end in two. */
  predicate Tame(s: Text) {
    var p := Pieces(s);
    && (p != [] ==> !EndsWith(StripCR(p[0]), CR))
    && forall i :: 0 < i < |p| ==> CR !in StripCR(p[i])
  }

  /** The same, first line included. */
  predicate Tidy(s: Text) {
    forall i :: 0 <= i < |Pieces(s)| ==> CR !in StripCR(Pieces(s)[i])
  }

  predicate Terminated(s: Text) { s == [] || EndsWith(s, LF) }

  /** The streams that arrive the same however they are cut. */
  predicate Framable(s: Text) {
    Tame(s) && (Terminated(s) || LF !in s)
  }

  // ----- tokens of a concatenation

  lemma TokensOfOne(c: Byte)
    ensures Tokens([c], LF) == if c == LF then [[], []] else [[c]]
  {
    assert [c][1..] == [] && Tokens([], LF) == [[]];
    assert [c] + [] == [c];
  }

  /** Two token lists of adjoining texts, with the last of one and the first of the other glued. */
  function Glue(x: seq<Text>, y: seq<Text>): (r: seq<Text>)
    requires x != [] && y != []
    ensures |r| == |x| + |y| - 1
  {
    Init(x) + [Last(x) + y[0]] + y[1..]
  }

  lemma GlueFront(c: Byte, x: seq<Text>, y: seq<Text>)
    requires x != [] && y != []
    ensures Glue([[]] + x, y) == [[]] + Glue(x, y)
    ensures Glue([[c] + x[0]] + x[1..], y) == [[c] + Glue(x, y)[0]] + Glue(x, y)[1..]
  {
    var g, h := Glue(x, y), Glue([[c] + x[0]] + x[1..], y);
    if |x| == 1 {
      assert [c] + (x[0] + y[0]) == ([c] + x[0]) + y[0];
    }
    assert forall i :: 0 < i < |h| ==> h[i] == g[i];
  }

  lemma {:induction false} TokensConcat(a: Text, b: Text)
    ensures Tokens(a + b, LF) == Glue(Tokens(a, LF), Tokens(b, LF))
  {
    var tb := Tokens(b, LF);
    if a == [] {
      assert a + b == b && [] + tb[0] == tb[0];
    } else {
      assert (a + b)[1..] == a[1..] + b;
      TokensConcat(a[1..], b);
      GlueFront(a[0], Tokens(a[1..], LF), tb);
    }
  }

  lemma TokensSnoc(s: Text, c: Byte)
    ensures Tokens(s + [c], LF) ==
            if c == LF then Tokens(s, LF) + [[]] else Init(Tokens(s, LF)) + [Last(Tokens(s, LF)) + [c]]
  {
    TokensConcat(s, [c]);
    TokensOfOne(c);
    assert Last(Tokens(s, LF)) + [] == Last(Tokens(s, LF));
  }

  lemma {:induction false} TokensOf(s: Text)
    ensures LF !in s ==> Tokens(s, LF) == [s]
    ensures LF in s ==> |Tokens(s, LF)| >= 2
    ensures forall i :: 0 <= i < |Tokens(s, LF)| ==> LF !in Tokens(s, LF)[i]
    ensures Last(Tokens(s, LF)) == [] <==> Terminated(s)
    ensures EndsWith(s, CR) <==> EndsWith(Last(Tokens(s, LF)), CR)
  {
    TokensRaw(s, LF);
    if s != [] {
      assert s == s[..|s| - 1] + [s[|s| - 1]];
      TokensSnoc(s[..|s| - 1], s[|s| - 1]);
    }
    if LF !in s {
      TokensSkip(s, [], LF);
      assert s + [] == s;
    }
  }

  function StripLast(v: seq<Text>): seq<Text>
    requires v != []
  {
    Init(v) + [StripCR(Last(v))]
  }

  lemma StripLastSame(v: seq<Text>)
    requires v != [] && !EndsWith(Last(v), CR)
    ensures StripLast(v) == v
  {
  }

  lemma TokensDropCR(z: Text)
    ensures StripLast(Tokens(z + [CR], LF)) == Tokens(z, LF)
  {
    TokensSnoc(z, CR);
    StripLastAdded(Tokens(z, LF));
  }

  lemma StripLastAdded(v: seq<Text>)
    requires v != []
    ensures StripLast(Init(v) + [Last(v) + [CR]]) == v
  {
    var w := Init(v) + [Last(v) + [CR]];
    assert Init(w) == Init(v) && StripCR(Last(w)) == Last(v);
  }

  lemma TokensStripCR(s: Text)
    ensures Tokens(StripCR(s), LF) == StripLast(Tokens(s, LF))
  {
    if EndsWith(s, CR) {
      assert s == StripCR(s) + [CR];
      TokensDropCR(StripCR(s));
    } else {
      TokensOf(s);
      StripLastSame(Tokens(s, LF));
    }
  }

  function WithoutLF(s: Text): Text {
    if EndsWith(s, LF) then s[..|s| - 1] else s
  }

  /** The text without a final newline has one token for each piece. */
  lemma PiecesAreTokens(s: Text)
    requires s != []
    ensures Pieces(s) != []
    ensures Pieces(s) == Tokens(WithoutLF(s), LF)
  {
    TokensOf(s);
    if EndsWith(s, LF) {
      assert s == s[..|s| - 1] + [LF];
      TokensSnoc(s[..|s| - 1], LF);
    }
  }

  lemma ChompStrips(s: Text)
    ensures Chomp(s) == StripCR(WithoutLF(s))
  {
  }

  lemma TokensOfChomp(s: Text)
    requires s != []
    ensures Pieces(s) != [] && NoDelimiter(Pieces(s), LF)
    ensures Tokens(Chomp(s), LF) == StripLast(Pieces(s))
  {
    PiecesAreTokens(s);
    ChompStrips(s);
    TokensStripCR(WithoutLF(s));
    TokensRaw(WithoutLF(s), LF);
  }

  lemma ChompPieces(p: seq<Text>)
    requires p != [] && NoDelimiter(p, LF)
    ensures ChompAll(StripLast(p)) == StripLast(StripAll(p))
  {
    forall i | 0 <= i < |p|
      ensures Chomp(StripLast(p)[i]) == StripLast(StripAll(p))[i]
    {
    }
  }

  /** str_split strips one CR from every line and another from the last. */
  lemma SplitPieces(s: Text)
    requires s != []
    ensures StreamLines(s) != [] && Split(s, LF) == StripLast(StreamLines(s))
  {
    TokensOfChomp(s);
    ChompPieces(Pieces(s));
  }
}
