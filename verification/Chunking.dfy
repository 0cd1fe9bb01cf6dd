/** The lines socket_readline hands out do not depend on how read(2) cuts the stream. */
module Chunking {
  import opened Bytes
  import opened Lines
  import opened Framing

  // ----- cutting a stream in two

  lemma StripAllConcat(x: seq<Text>, y: seq<Text>)
    ensures StripAll(x + y) == StripAll(x) + StripAll(y)
  {
  }

  lemma CutAfterNewline(e: Text, y: Text)
    requires EndsWith(e, LF)
    ensures Pieces(e + y) == Pieces(e) + Pieces(y)
    ensures StreamLines(e + y) == StreamLines(e) + StreamLines(y)
  {
    TokensConcat(e, y);
    TokensOf(e);
    GlueEmpty(Tokens(e, LF), Tokens(y, LF));
    StripAllConcat(Pieces(e), Pieces(y));
  }

  lemma GlueEmpty(x: seq<Text>, y: seq<Text>)
    requires x != [] && y != [] && Last(x) == []
    ensures Glue(x, y) == Init(x) + y
    ensures Last(Glue(x, y)) == Last(y) && Init(Glue(x, y)) == Init(x) + Init(y)
  {
    assert [] + y[0] == y[0];
    assert [y[0]] + y[1..] == y;
  }

  lemma StripAllInit(v: seq<Text>)
    requires v != []
    ensures StripAll(Init(v)) == Init(StripAll(v))
  {
  }

  lemma GlueParts(x: seq<Text>, y: seq<Text>)
    requires x != [] && y != []
    ensures Glue(x, y) == Init(x) + ([Last(x) + y[0]] + y[1..])
  {
  }

  lemma TokensInsideLine(e: Text, y: Text)
    ensures Tokens(e + y, LF) == Init(Tokens(e, LF)) + Tokens(Last(Tokens(e, LF)) + y, LF)
  {
    TokensRaw(e, LF);
    TokensConcat(e, y);
    TokensSkip(Last(Tokens(e, LF)), y, LF);
    GlueParts(Tokens(e, LF), Tokens(y, LF));
  }

  lemma CutInsideLine(e: Text, y: Text)
    requires e != [] && !EndsWith(e, LF)
    ensures Pieces(e) == Tokens(e, LF)
    ensures Pieces(e + y) == Init(Pieces(e)) + Pieces(Last(Pieces(e)) + y)
    ensures StreamLines(e + y) == Init(StreamLines(e)) + StreamLines(Last(Pieces(e)) + y)
  {
    TokensOf(e);
    TokensInsideLine(e, y);
    var te := Tokens(e, LF);
    InitOfConcat(Init(te), Tokens(Last(te) + y, LF));
    StripAllConcat(Init(te), Pieces(Last(te) + y));
    StripAllInit(te);
  }

  lemma InitOfConcat(x: seq<Text>, y: seq<Text>)
    requires y != []
    ensures Init(x + y) == x + Init(y) && Last(x + y) == Last(y)
  {
  }

  lemma CRInside(p: Text, q: Text)
    requires EndsWith(p, CR) && p <= q && p != q
    ensures CR in StripCR(q)
  {
    assert StripCR(q)[|p| - 1] == CR;
  }

  /** A kept fragment loses a final CR, which its line was to lose anyway. */
  lemma FragmentStrip(p: Text, y: Text)
    requires p != [] && LF !in p && Tidy(p + y)
    ensures var f := StripCR(StripCR(p));
            && CR !in f && LF !in f && Tidy(f + y)
            && StreamLines(f + y) <= StreamLines(p + y)
            && (EndsWith(y, LF) ==> StreamLines(f + y) == StreamLines(p + y))
  {
    var f, ty := StripCR(StripCR(p)), Tokens(y, LF);
    TokensSkip(p, y, LF);
    var q := p + ty[0];
    assert Pieces(p + y)[0] == q;
    assert CR !in StripCR(q);
    if EndsWith(p, CR) {
      if ty[0] != [] {
        CRInside(p, q);
      }
      assert q == p && CR !in StripCR(p) && f == StripCR(p);
      StrippedPiece(p, f, y);
    } else {
      assert forall i :: 0 <= i < |p| ==> p[i] == q[i];
      assert f == p;
    }
  }

  /** The first line of the text without the carriage return it ends in. */
  lemma StrippedPiece(p: Text, f: Text, y: Text)
    requires p != [] && LF !in p && f == StripCR(p) == StripCR(f) && Tokens(y, LF)[0] == [] && Tidy(p + y)
    ensures Tidy(f + y) && StreamLines(f + y) <= StreamLines(p + y)
    ensures EndsWith(y, LF) ==> StreamLines(f + y) == StreamLines(p + y)
  {
    TokensOf(y);
    if |Tokens(y, LF)| > 1 {
      FrontPiece(p, y);
      FrontPiece(f, y);
      SameLines(p, f, Pieces(y)[1..]);
      TidyLines(p + y, f + y);
    } else {
      assert y == [] && p + y == p && f + y == f;
      TokensOf(f);
      TokensOf(p);
      if f != [] {
        assert StreamLines(f) == [f] == StreamLines(p);
        TidyLines(p, f);
      }
    }
  }

  lemma TidyLines(a: Text, b: Text)
    requires StreamLines(a) == StreamLines(b) && Tidy(a)
    ensures Tidy(b)
  {
    forall i | 0 <= i < |Pieces(b)|
      ensures CR !in StripCR(Pieces(b)[i])
    {
      assert StreamLines(b)[i] == StreamLines(a)[i];
    }
  }

  lemma FrontPiece(p: Text, y: Text)
    requires LF !in p && |Tokens(y, LF)| > 1 && Tokens(y, LF)[0] == []
    ensures Pieces(y) != [] && Pieces(p + y) == [p] + Pieces(y)[1..]
  {
    var t := Tokens(y, LF);
    TokensSkip(p, y, LF);
    assert p + t[0] == p && Tokens(p + y, LF) == [p] + t[1..];
    assert Last([p] + t[1..]) == Last(t);
  }

  lemma SameLines(p: Text, f: Text, rest: seq<Text>)
    requires StripCR(f) == StripCR(p)
    ensures StripAll([f] + rest) == StripAll([p] + rest)
  {
    StripAllConcat([p], rest);
    StripAllConcat([f], rest);
    assert StripAll([p]) == StripAll([f]);
  }

  lemma ChompBehind(f: Text, x: Text)
    requires CR !in f && LF !in f
    ensures Chomp(f + x) == f + Chomp(x)
  {
    ChompStrips(x);
    ChompStrips(f + x);
    assert WithoutLF(f + x) == f + WithoutLF(x);
  }

  lemma ChompAllBehind(f: Text, t: seq<Text>)
    requires t != [] && CR !in f && LF !in f
    ensures ChompAll([f + t[0]] + t[1..]) == [f + ChompAll(t)[0]] + ChompAll(t)[1..]
  {
    ChompBehind(f, t[0]);
  }

  /** Splitting behind a fragment only extends its first line. */
  lemma FragmentSplit(f: Text, x: Text)
    requires x != [] && CR !in f && LF !in f
    ensures Split(f + x, LF) == [f + Split(x, LF)[0]] + Split(x, LF)[1..]
  {
    ChompBehind(f, x);
    TokensSkip(f, Chomp(x), LF);
    ChompAllBehind(f, Tokens(Chomp(x), LF));
  }

  // ----- one call

  /** What the read loop leaves of an orderly stream. */
  lemma {:induction false} GatherOrderly(line: Text, feed: seq<Read>)
    requires Orderly(feed, line != []) && LF !in line
    ensures var (g, connected, rest) := Gather(line, true, feed);
            match g
            case Quiet => line == [] && Stream(rest) == Stream(feed) && Orderly(rest, false)
            case Broken => line == [] && Stream(feed) == []
            case Got(x) =>
              && x + Stream(rest) == line + Stream(feed) && Orderly(rest, false)
              && if connected then LF in x else LF !in x && rest == []
    decreases |feed|
  {
    if feed != [] {
      match feed[0]
      case Intr => GatherOrderly(line, feed[1..]);
      case Again =>
      case Data(bytes) =>
        var l, rest := line + bytes, feed[1..];
        assert Stream(feed) == bytes + Stream(rest) && CString(bytes) == bytes;
        assert l + Stream(rest) == line + (bytes + Stream(rest));
        if LF !in l {
          GatherOrderly(l, rest);
        }
    } else {
      assert line + [] == line;
    }
  }

  /** The unterminated piece at the end of the buffer, and the lines before it. */
  function Fragment(c: Conn): Text
    requires c.fragmented ==> c.buf != []
  {
    if c.fragmented then Last(c.buf) else []
  }

  function Before(c: Conn): seq<Text>
    requires c.fragmented ==> c.buf != []
  {
    if c.fragmented then Init(c.buf) else c.buf
  }

  /** The framing invariant while the connection lasts and `d` is still to be read. */
  predicate Inv(c: Conn, d: Text) {
    && c.connected
    && if c.fragmented then c.buf != [] && c.tailed && CR !in Last(c.buf) && LF !in Last(c.buf) && Tidy(Last(c.buf) + d)
       else Tame(d)
  }

  /** The lines not handed out yet. */
  function Pending(c: Conn, d: Text): seq<Text>
    requires c.fragmented ==> c.buf != []
  {
    Before(c) + StreamLines(Fragment(c) + d)
  }

  /** The stream does not end behind a newline and a fragment. */
  predicate Complete(c: Conn, d: Text) {
    if c.fragmented then EndsWith(d, LF) else Terminated(d) || LF !in d
  }

  lemma ExtendLast(buf: seq<Text>, last: Text, more: seq<Text>)
    requires buf != []
    ensures buf[|buf| - 1 := last] + more == Init(buf) + ([last] + more)
  {
  }

  lemma AcceptedLines(c: Conn, x: Text, connected: bool)
    requires x != []
    requires if c.fragmented then c.buf != [] && c.tailed && CR !in Last(c.buf) && LF !in Last(c.buf) else c.buf == []
    ensures StreamLines(Fragment(c) + x) != []
    ensures var all := Before(c) + StripLast(StreamLines(Fragment(c) + x));
            var (reply, c') := Accept(c, x, connected);
            && reply == Line(all[0]) && c'.buf == all[1..]
            && c'.fragmented == !EndsWith(x, LF) && c'.connected == connected
            && (!c.fragmented || |StreamLines(x)| > 1 ==> c'.tailed)
  {
    SplitPieces(x);
    SplitPieces(Fragment(c) + x);
    if c.fragmented {
      FragmentSplit(Last(c.buf), x);
      ExtendLast(c.buf, Last(c.buf) + Split(x, LF)[0], Split(x, LF)[1..]);
    } else {
      assert [] + x == x;
    }
  }

  lemma TidyIsTame(s: Text)
    requires Tidy(s)
    ensures Tame(s)
  {
  }

  lemma WholeLines(e: Text, y: Text)
    requires EndsWith(e, LF) && Tame(e + y)
    ensures Tame(y) && StreamLines(e) != [] && StripLast(StreamLines(e)) == StreamLines(e)
    ensures StreamLines(e + y) == StreamLines(e) + StreamLines(y)
  {
    CutAfterNewline(e, y);
    SplitPieces(e);
    var p, q := Pieces(e), Pieces(e + y);
    LaterPieces(q, p, Pieces(y));
    assert q[0] == p[0] && q[|p| - 1] == Last(p);
    StripLastSame(StreamLines(e));
  }

  /** Pieces after the first hold a carriage return only at the end. */
  lemma LaterPieces(q: seq<Text>, x: seq<Text>, y: seq<Text>)
    requires q == x + y && x != [] && forall i :: 0 < i < |q| ==> CR !in StripCR(q[i])
    ensures forall i :: 0 <= i < |y| ==> CR !in StripCR(y[i])
  {
    forall i | 0 <= i < |y|
      ensures CR !in StripCR(y[i])
    {
      assert q[|x| + i] == y[i];
    }
  }

  lemma StripLastParts(v: seq<Text>)
    requires v != []
    ensures |StripLast(v)| == |v| && Init(StripLast(v)) == Init(v) && Last(StripLast(v)) == StripCR(Last(v))
  {
  }

  lemma PartLine(e: Text, y: Text)
    requires LF in e && !EndsWith(e, LF) && Tame(e + y)
    ensures |StreamLines(e)| >= 2
    ensures var f := StripCR(Last(StreamLines(e)));
            && CR !in f && LF !in f && Tidy(f + y)
            && Init(StreamLines(e)) + StreamLines(f + y) <= StreamLines(e + y)
            && (EndsWith(y, LF) ==> Init(StreamLines(e)) + StreamLines(f + y) == StreamLines(e + y))
  {
    CutInsideLine(e, y);
    TokensOf(e);
    var t, q := Pieces(e), Pieces(e + y);
    var p, l := Last(t), StreamLines(e);
    LaterPieces(q, Init(t), Pieces(p + y));
    FragmentStrip(p, y);
    assert Last(l) == StripCR(p);
    AssocPrefix(Init(l), StreamLines(StripCR(Last(l)) + y), StreamLines(p + y));
  }

  lemma FirstOut<T>(b: seq<T>, l: seq<T>, s: seq<T>)
    requires l != []
    ensures [(b + l)[0]] + ((b + l)[1..] + s) == b + (l + s)
    ensures |b| + |l| >= 2 ==> [(b + l)[0]] + (Init((b + l)[1..]) + s) == b + (Init(l) + s)
    ensures |b| + |l| >= 2 ==> Last((b + l)[1..]) == Last(l)
  {
  }

  /** The fragment in front of the rest of the stream. */
  lemma FragmentFirst(c: Conn, x: Text, y: Text)
    requires Inv(c, x + y)
    ensures Fragment(c) + (x + y) == (Fragment(c) + x) + y
    ensures Tame((Fragment(c) + x) + y)
  {
    if c.fragmented {
      assert Last(c.buf) + (x + y) == (Last(c.buf) + x) + y;
      TidyIsTame(Last(c.buf) + (x + y));
    } else {
      assert [] + (x + y) == x + y && [] + x == x;
    }
  }

  /** Whole lines `x` in front of `y` are pending as they are. */
  lemma WholeLinesPending(c: Conn, x: Text, y: Text)
    requires Inv(c, x + y) && EndsWith(x, LF)
    ensures var l := StreamLines(Fragment(c) + x);
            l != [] && StripLast(l) == l && Tame(y) && Pending(c, x + y) == Before(c) + (l + StreamLines(y))
  {
    FragmentFirst(c, x, y);
    WholeLines(Fragment(c) + x, y);
  }

  /** Text that ends a line completes every line it holds. */
  lemma AcceptWholeLines(c: Conn, x: Text, y: Text)
    requires Inv(c, x + y) && (c.fragmented || c.buf == []) && EndsWith(x, LF)
    ensures var (reply, c') := Accept(c, x, true);
            && reply.Line? && Inv(c', y)
            && [reply.text] + Pending(c', y) == Pending(c, x + y)
  {
    WholeLinesPending(c, x, y);
    AcceptedLines(c, x, true);
    var (reply, c') := Accept(c, x, true);
    FirstHandedOut(Before(c), StreamLines(Fragment(c) + x), reply, c', y);
  }

  /** The first of the lines `b` and `l` is handed out, and the others stay pending. */
  lemma FirstHandedOut(b: seq<Text>, l: seq<Text>, reply: Reply, c: Conn, y: Text)
    requires l != [] && c.connected && !c.fragmented && Tame(y)
    requires reply == Line((b + l)[0]) && c.buf == (b + l)[1..]
    ensures Inv(c, y) && [reply.text] + Pending(c, y) == b + (l + StreamLines(y))
  {
    FirstOut(b, l, StreamLines(y));
    assert [] + y == y;
  }

  /** Text that ends inside a line leaves the last piece behind as a fragment. */
  lemma AcceptWithFragment(c: Conn, x: Text, y: Text)
    requires Inv(c, x + y) && (c.fragmented || c.buf == []) && LF in x && !EndsWith(x, LF)
    ensures var (reply, c') := Accept(c, x, true);
            && reply.Line? && c'.fragmented && Inv(c', y)
            && [reply.text] + Pending(c', y) <= Pending(c, x + y)
            && (EndsWith(y, LF) ==> [reply.text] + Pending(c', y) == Pending(c, x + y))
  {
    AcceptedLines(c, x, true);
    SplitPieces(x);
    TokensOf(x);
    FragmentFirst(c, x, y);
    var e := Fragment(c) + x;
    NewlineBehind(Fragment(c), x);
    PartLine(e, y);
    var f := StripCR(Last(StreamLines(e)));
    var l := StripLast(StreamLines(e));
    StripLastParts(StreamLines(e));
    FirstOut(Before(c), l, StreamLines(f + y));
    AssocPrefix(Before(c), Init(l) + StreamLines(f + y), StreamLines(e + y));
  }

  lemma NewlineBehind(f: Text, x: Text)
    requires LF in x
    ensures LF in f + x && EndsWith(f + x, LF) == EndsWith(x, LF)
  {
    var i :| 0 <= i < |x| && x[i] == LF;
    assert (f + x)[|f| + i] == LF;
  }

  lemma AssocPrefix<T>(b: seq<T>, x: seq<T>, y: seq<T>)
    requires x <= y
    ensures b + x <= b + y
  {
  }

  /** A last piece without a newline is one line, which has lost its carriage return. */
  lemma OneLastLine(c: Conn, x: Text)
    requires Inv(c, x) && x != [] && LF !in x
    ensures StreamLines(Fragment(c) + x) == StripLast(StreamLines(Fragment(c) + x)) == [StripCR(Fragment(c) + x)]
  {
    var e := Fragment(c) + x;
    TokensOf(e);
    assert Pieces(e) == [e] && StreamLines(e) == [StripCR(e)];
    if c.fragmented {
      assert CR !in StripCR(Pieces(e)[0]);
    } else {
      assert [] + x == x;
    }
    assert !EndsWith(StripCR(e), CR);
  }

  /** Text without a newline is the whole rest of the stream. */
  lemma AcceptLastPiece(c: Conn, x: Text)
    requires Inv(c, x) && (c.fragmented || c.buf == []) && x != [] && LF !in x
    ensures var (reply, c') := Accept(c, x, false);
            && reply.Line? && c'.fragmented && !c'.connected
            && [reply.text] <= Pending(c, x)
            && (Complete(c, x) ==> [reply.text] == Pending(c, x))
  {
    AcceptedLines(c, x, false);
    OneLastLine(c, x);
  }

  // ----- whole sessions

  /** One call: it fails when nothing is pending, and otherwise hands out the first pending
      line or times out. When the connection ends, nothing more comes. */
  lemma CallPending(c: Conn, feed: seq<Read>)
    requires Orderly(feed, false) && Inv(c, Stream(feed)) && (c.fragmented || c.buf == [])
    ensures var d, (reply, c', rest) := Stream(feed), Readline(c, feed);
            match reply
            case LogicError => false
            case Failed => d == []
            case Timeout => c' == c && Stream(rest) == d && Orderly(rest, false)
            case Line(text) =>
              if !c'.connected then
                rest == [] && c'.fragmented && [text] <= Pending(c, d) && (Complete(c, d) ==> [text] == Pending(c, d))
              else
                var d' := Stream(rest);
                && Orderly(rest, false) && Inv(c', d') && [text] + Pending(c', d') <= Pending(c, d)
                && (Complete(c, d) ==> Complete(c', d') && [text] + Pending(c', d') == Pending(c, d))
  {
    var d := Stream(feed);
    GatherOrderly([], feed);
    assert [] + d == d;
    var (g, connected, rest) := Gather([], true, feed);
    if g.Got? {
      if connected {
        TakesLine(c, g.line, Stream(rest));
      } else {
        assert g.line + [] == g.line;
        AcceptLastPiece(c, g.line);
      }
    }
  }

  /** Text with a newline, while the connection lasts. */
  lemma TakesLine(c: Conn, x: Text, y: Text)
    requires Inv(c, x + y) && (c.fragmented || c.buf == []) && LF in x
    ensures var (reply, c') := Accept(c, x, true);
            && reply.Line? && Inv(c', y) && [reply.text] + Pending(c', y) <= Pending(c, x + y)
            && (Complete(c, x + y) ==> Complete(c', y) && [reply.text] + Pending(c', y) == Pending(c, x + y))
  {
    TerminatedRest(x, y);
    if EndsWith(x, LF) {
      AcceptWholeLines(c, x, y);
      AcceptedLines(c, x, true);
    } else {
      AcceptWithFragment(c, x, y);
    }
  }

  lemma TerminatedRest(x: Text, y: Text)
    ensures EndsWith(x + y, LF) && y != [] ==> EndsWith(y, LF)
    ensures y == [] ==> x + y == x
  {
  }

  lemma BufferedCall(c: Conn, d: Text)
    requires Inv(c, d) && c.buf != [] && !c.fragmented
    ensures var c' := c.(buf := c.buf[1..], tailed := c.tailed || |c.buf| == 1);
            && Inv(c', d) && Complete(c', d) == Complete(c, d)
            && [c.buf[0]] + Pending(c', d) == Pending(c, d)
  {
    var later := StreamLines([] + d);
    assert [c.buf[0]] + (c.buf[1..] + later) == c.buf + later;
  }

  /** What a session has to do with the lines pending when it starts. */
  predicate Delivers(s: Session, c: Conn, d: Text)
    requires c.fragmented ==> c.buf != []
  {
    && s.end == Failed && s.lines <= Pending(c, d)
    && (Complete(c, d) ==> s.lines == Pending(c, d))
  }

  lemma DeliversMore(s: Session, c: Conn, d: Text, text: Text, c': Conn, d': Text)
    requires (c.fragmented ==> c.buf != []) && (c'.fragmented ==> c'.buf != [])
    requires Delivers(s, c', d') && [text] + Pending(c', d') <= Pending(c, d)
    requires Complete(c, d) ==> Complete(c', d') && [text] + Pending(c', d') == Pending(c, d)
    ensures Delivers(s.(lines := [text] + s.lines), c, d)
  {
    AssocPrefix([text], s.lines, Pending(c', d'));
  }

  /** A session hands out a prefix of the pending lines, and all of them unless the stream
      ends behind a fragment. Then it fails. */
  lemma {:induction false} DrainPending(c: Conn, feed: seq<Read>)
    requires Orderly(feed, false) && Inv(c, Stream(feed))
    ensures Delivers(Drain(c, feed), c, Stream(feed))
    decreases |feed|, |c.buf|
  {
    var (reply, c', rest) := Readline(c, feed);
    if c.buf != [] && !c.fragmented {
      BufferedCall(c, Stream(feed));
      DrainPending(c', feed);
      DeliversMore(Drain(c', feed), c, Stream(feed), c.buf[0], c', Stream(feed));
    } else {
      CallPending(c, feed);
      if reply.Failed? {
        if !c.fragmented {
          NothingPending(c);
        }
      } else if reply.Timeout? {
        DrainPending(c, rest);
      } else if c'.connected {
        DrainPending(c', rest);
        DeliversMore(Drain(c', rest), c, Stream(feed), reply.text, c', Stream(rest));
      } else {
        assert Drain(c', []) == Session([], Failed);
      }
    }
  }

  lemma NothingPending(c: Conn)
    requires !c.fragmented && c.buf == []
    ensures Pending(c, []) == []
  {
    assert Fragment(c) + [] == [] && Pieces([]) == [];
  }

  /** Chunking independence. */
  lemma {:induction false} AnyChunking(feed: seq<Read>)
    requires Orderly(feed, false) && Framable(Stream(feed))
    ensures Drain(START, feed) == Session(StreamLines(Stream(feed)), Failed)
  {
    DrainPending(START, feed);
    assert [] + Stream(feed) == Stream(feed);
  }

  /** Wherever the stream breaks off, the lines handed out are lines of the stream, in order. */
  lemma {:induction false} EarlyEnd(feed: seq<Read>)
    requires Orderly(feed, false) && Tame(Stream(feed))
    ensures Drain(START, feed).lines <= StreamLines(Stream(feed)) && Drain(START, feed).end == Failed
  {
    DrainPending(START, feed);
    assert [] + Stream(feed) == Stream(feed);
  }
}
