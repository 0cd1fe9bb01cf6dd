/** How far chunking independence reaches: on every other stream some cut changes the lines,
    and what the reader does with ends of file and reads that would block. */
module ChunkingLimits {
  import opened Bytes
  import opened Lines
  import opened Framing
  import opened Chunking

  // ----- short sessions

  /** One read for each of the texts that is not empty. */
  function Lead(x: Text): seq<Read> { if x == [] then [] else [Data(x)] }

  function Reads(cs: seq<Text>): seq<Read> {
    if cs == [] then [] else Lead(cs[0]) + Reads(cs[1..])
  }

  lemma {:induction false} ReadsOrderly(cs: seq<Text>, held: bool)
    requires forall i :: 0 <= i < |cs| ==> NUL !in cs[i]
    ensures Orderly(Reads(cs), held) && Stream(Reads(cs)) == Flatten(cs)
  {
    if cs != [] {
      ReadsOrderly(cs[1..], if cs[0] == [] then held else LF !in cs[0]);
      var rest := Reads(cs[1..]);
      if cs[0] == [] {
        assert [] + rest == rest && [] + Flatten(cs[1..]) == Flatten(cs[1..]);
      } else {
        assert ([Data(cs[0])] + rest)[1..] == rest;
      }
    }
  }

  lemma OneRead(x: Text)
    ensures Flatten([x]) == x && Reads([x]) == Lead(x)
  {
    assert [x][1..] == [] && x + [] == x;
  }

  lemma TwoReads(x: Text, y: Text)
    ensures Flatten([x, y]) == x + y
    ensures Reads([x, y]) == Lead(x) + Lead(y)
  {
    OneRead(y);
    assert [x, y][1..] == [y];
  }

  lemma ThreeReads(z: Text, x: Text, y: Text)
    ensures Flatten([z, x, y]) == z + x + y
    ensures Reads([z, x, y]) == Lead(z) + (Lead(x) + Lead(y))
  {
    TwoReads(x, y);
    assert [z, x, y][1..] == [x, y] && z + (x + y) == z + x + y;
  }

  lemma GatherOne(x: Text, rest: seq<Read>)
    requires LF in x && NUL !in x
    ensures Gather([], true, [Data(x)] + rest) == (Got(x), true, rest)
  {
    assert ([Data(x)] + rest)[1..] == rest && [] + CString(x) == x;
  }

  lemma GatherLast(y: Text)
    requires y != [] && NUL !in y
    ensures Gather([], true, [Data(y)]) == (Got(y), LF in y, [])
  {
    assert [Data(y)][1..] == [] && [] + CString(y) == y;
  }

  lemma AcceptFirst(x: Text)
    requires LF in x
    ensures Split(x, LF) != []
    ensures Accept(START, x, true) == (Line(Split(x, LF)[0]), Conn(Split(x, LF)[1..], true, !EndsWith(x, LF), true))
  {
    SplitPieces(x);
    var t := Split(x, LF);
    assert [] + t == t;
  }

  lemma FirstCall(x: Text, rest: seq<Read>)
    requires LF in x && NUL !in x
    ensures Split(x, LF) != []
    ensures Readline(START, [Data(x)] + rest) ==
            (Line(Split(x, LF)[0]), Conn(Split(x, LF)[1..], true, !EndsWith(x, LF), true), rest)
  {
    GatherOne(x, rest);
    AcceptFirst(x);
  }

  lemma DrainLine(c: Conn, feed: seq<Read>, text: Text, c': Conn, rest: seq<Read>)
    requires Readline(c, feed) == (Line(text), c', rest)
    ensures Drain(c, feed) == Session([text] + Drain(c', rest).lines, Drain(c', rest).end)
  {
  }

  lemma TakeOne(c: Conn, feed: seq<Read>)
    requires !c.fragmented && c.buf != []
    ensures var s := Drain(c.(buf := c.buf[1..], tailed := c.tailed || |c.buf| == 1), feed);
            Drain(c, feed) == Session([c.buf[0]] + s.lines, s.end)
  {
  }

  /** Complete lines in the buffer are handed out before anything else happens. */
  lemma {:induction false} DrainBuffered(c: Conn, feed: seq<Read>)
    requires !c.fragmented && c.buf != []
    ensures var s := Drain(c.(buf := [], tailed := true), feed);
            Drain(c, feed) == Session(c.buf + s.lines, s.end)
    decreases |c.buf|
  {
    var c', c0 := c.(buf := c.buf[1..], tailed := c.tailed || |c.buf| == 1), c.(buf := [], tailed := true);
    TakeOne(c, feed);
    if |c.buf| == 1 {
      assert c' == c0 && [c.buf[0]] == c.buf;
    } else {
      DrainBuffered(c', feed);
      assert c'.(buf := [], tailed := true) == c0;
      FirstInFront(c.buf, Drain(c0, feed).lines);
    }
  }

  lemma FirstInFront(b: seq<Text>, later: seq<Text>)
    requires b != []
    ensures [b[0]] + (b[1..] + later) == b + later
  {
  }

  lemma BufferFirst(t: seq<Text>, rest: seq<Read>)
    requires t != []
    ensures [t[0]] + Drain(Conn(t[1..], true, false, true), rest).lines == t + Drain(START, rest).lines
  {
    var c := Conn(t[1..], true, false, true);
    if |t| == 1 {
      assert c == START;
    } else {
      DrainBuffered(c, rest);
      assert c.(buf := [], tailed := true) == START;
    }
    FirstInFront(t, Drain(START, rest).lines);
  }

  /** A read of whole lines delivers what splitting makes of them. */
  lemma WholeLinesFirst(z: Text, rest: seq<Read>)
    requires EndsWith(z, LF) && NUL !in z
    ensures Drain(START, [Data(z)] + rest).lines == Split(z, LF) + Drain(START, rest).lines
  {
    FirstCall(z, rest);
    var t := Split(z, LF);
    DrainLine(START, [Data(z)] + rest, t[0], Conn(t[1..], true, false, true), rest);
    BufferFirst(t, rest);
  }

  /** Text behind a fragment completes it and is delivered with it. */
  lemma FragmentThen(f: Text, y: Text)
    requires y != [] && NUL !in y
    ensures Split(y, LF) != []
    ensures var lines := Drain(Conn([f], true, true, true), [Data(y)]).lines;
            lines != [] && lines[0] == f + Split(y, LF)[0]
  {
    SplitPieces(y);
    GatherLast(y);
    var c := Conn([f], true, true, true);
    assert c.buf[0 := f + Split(y, LF)[0]] == [f + Split(y, LF)[0]];
    assert Accept(c, y, LF in y).0 == Line(f + Split(y, LF)[0]);
  }

  /** Two reads, cut inside the second line. */
  lemma SecondLine(x: Text, y: Text)
    requires |Split(x, LF)| == 2 && LF in x && !EndsWith(x, LF) && NUL !in x && y != [] && NUL !in y
    ensures Split(y, LF) != []
    ensures var lines := Drain(START, [Data(x), Data(y)]).lines;
            |lines| >= 2 && lines[1] == Split(x, LF)[1] + Split(y, LF)[0]
  {
    var t := Split(x, LF);
    assert [Data(x)] + [Data(y)] == [Data(x), Data(y)] && t[1..] == [t[1]];
    FirstCall(x, [Data(y)]);
    DrainLine(START, [Data(x), Data(y)], t[0], Conn([t[1]], true, true, true), [Data(y)]);
    FragmentThen(t[1], y);
  }

  /** Three reads: whole lines, then a cut inside the line after the next. */
  lemma LaterLine(z: Text, x: Text, y: Text) returns (later: seq<Text>)
    requires (z == [] || EndsWith(z, LF)) && NUL !in z
    requires |Split(x, LF)| == 2 && LF in x && !EndsWith(x, LF) && NUL !in x && y != [] && NUL !in y
    ensures Split(y, LF) != []
    ensures Drain(START, Lead(z) + [Data(x), Data(y)]).lines == Split(z, LF) + later
    ensures |later| >= 2 && later[1] == Split(x, LF)[1] + Split(y, LF)[0]
  {
    var rest := [Data(x), Data(y)];
    SecondLine(x, y);
    later := Drain(START, rest).lines;
    if z != [] {
      WholeLinesFirst(z, rest);
    } else {
      assert [] + rest == rest && [] + later == later;
    }
  }

  // ----- the streams that are not framable

  /** A stream that ends inside a later line. */
  lemma {:induction false} LastLineIsLost(s: Text)
    requires NUL !in s && LF in s && !Terminated(s)
    ensures Drain(START, [Data(s)]).lines == [Split(s, LF)[0]] && Drain(START, [Data(s)]).lines != StreamLines(s)
  {
    assert [Data(s)] + [] == [Data(s)];
    FirstCall(s, []);
    TokensOf(s);
    SplitPieces(s);
    var c := Conn(Split(s, LF)[1..], true, true, true);
    assert Drain(c, []) == Session([], Failed);
    assert |Drain(START, [Data(s)]).lines| == 1;
  }

  /** For instance, the second of these lines. */
  lemma {:induction false} LastLineExample()
    ensures Drain(START, [Data("a\nb")]).lines == ["a"]
    ensures StreamLines("a\nb") == ["a", "b"]
  {
    var s: Text := "a\nb";
    assert s == "a" + [LF] + "b";
    TokensSplit("a", "b", LF);
    TokensOf("a");
    TokensOf("b");
    assert Pieces(s) == ["a", "b"] && StripCR("a") == "a" && StripCR("b") == "b";
    assert StreamLines(s) == ["a", "b"] && StripLast(StreamLines(s)) == ["a", "b"];
    SplitPieces(s);
    LastLineIsLost(s);
  }

  lemma StrippedTwice(s: Text)
    requires EndsWith(StripCR(s), CR)
    ensures StripCR(StripCR(s)) != StripCR(s)
  {
  }

  lemma OnlyLineShrinks(s: Text)
    requires NUL !in s && LF !in s && EndsWith(StripCR(s), CR)
    ensures var lines := Drain(START, [Data(s)]).lines;
            lines != [] && lines[0] != StripCR(s)
  {
    TokensOf(s);
    SplitPieces(s);
    StrippedTwice(s);
    GatherLast(s);
    assert [] + Split(s, LF) == Split(s, LF);
    assert Accept(START, s, false).0 == Line(Split(s, LF)[0]);
  }

  lemma FirstOfManyShrinks(p: Text, rest: seq<Read>)
    requires NUL !in p && LF !in p && EndsWith(StripCR(p), CR)
    ensures var lines := Drain(START, [Data(p + [LF])] + rest).lines;
            lines != [] && lines[0] != StripCR(p)
  {
    var x := p + [LF];
    FirstCall(x, rest);
    SplitPieces(x);
    TokensSnoc(p, LF);
    TokensOf(p);
    assert Pieces(x) == [p];
    StrippedTwice(p);
  }

  /** A first line that ends in two carriage returns, cut behind that line. */
  lemma FirstLineShrinks(s: Text) returns (feed: seq<Read>)
    requires NUL !in s && Pieces(s) != [] && EndsWith(StripCR(Pieces(s)[0]), CR)
    ensures Orderly(feed, false) && Stream(feed) == s
    ensures Drain(START, feed).lines != [] && Drain(START, feed).lines[0] != StreamLines(s)[0]
  {
    var t := Tokens(s, LF);
    TokensOf(s);
    TokensRaw(s, LF);
    if LF !in s {
      feed := Reads([s]);
      OneRead(s);
      ReadsOrderly([s], false);
      OnlyLineShrinks(s);
    } else {
      var x, y := t[0] + [LF], Raw(t[1..], LF);
      feed := Reads([x, y]);
      assert s == x + y;
      NulFree(s, [], x, y);
      TwoReads(x, y);
      ReadsOrderly([x, y], false);
      FirstOfManyShrinks(t[0], Lead(y));
    }
  }

  lemma NulFree(s: Text, z: Text, x: Text, y: Text)
    requires NUL !in s && s == z + x + y
    ensures NUL !in z && NUL !in x && NUL !in y
  {
    assert forall k :: 0 <= k < |z| ==> z[k] == s[k];
    assert forall k :: 0 <= k < |x| ==> x[k] == s[|z| + k];
    assert forall k :: 0 <= k < |y| ==> y[k] == s[|z| + |x| + k];
  }

  /** Piece `i` of a stream cut behind the carriage return at `j`: the lines before the piece in
      front of it, from there to the cut, and the rest. */
  function Ahead(t: seq<Text>, i: nat): Text
    requires 0 < i < |t|
  {
    if i == 1 then [] else Raw(t[..i - 1], LF) + [LF]
  }

  function Around(t: seq<Text>, i: nat, j: nat): Text
    requires 0 < i < |t| && j < |t[i]|
  {
    t[i - 1] + [LF] + (t[i][..j] + [CR])
  }

  function Behind(t: seq<Text>, i: nat, j: nat): Text
    requires 0 < i < |t| && j < |t[i]|
  {
    t[i][j + 1..] + if i + 1 < |t| then [LF] + Raw(t[i + 1..], LF) else []
  }

  /** A piece and all that follows it. */
  lemma RawFrom(t: seq<Text>, i: nat)
    requires i < |t|
    ensures Raw(t[i..], LF) == t[i] + if i + 1 < |t| then [LF] + Raw(t[i + 1..], LF) else []
  {
    assert t[i..][1..] == t[i + 1..];
    if i + 1 < |t| {
      assert t[i] + [LF] + Raw(t[i + 1..], LF) == t[i] + ([LF] + Raw(t[i + 1..], LF));
    } else {
      assert t[i] + [] == t[i];
    }
  }

  lemma SameText(z: Text, a: Text, b: Text, c: Text, d: Text)
    ensures z + (a + [LF] + (b + [CR])) + (c + d) == z + (a + ([LF] + (((b + [CR]) + c) + d)))
  {
  }

  lemma CutJoins(t: seq<Text>, i: nat, j: nat)
    requires 0 < i < |t| && j < |t[i]| && t[i][j] == CR
    ensures Ahead(t, i) + Around(t, i, j) + Behind(t, i, j) == Raw(t, LF)
  {
    var b, c, d := t[i][..j], t[i][j + 1..], if i + 1 < |t| then [LF] + Raw(t[i + 1..], LF) else [];
    assert t[i] == (b + [CR]) + c;
    RawFrom(t, i);
    RawFrom(t, i - 1);
    assert Raw(t[i - 1..], LF) == t[i - 1] + ([LF] + (((b + [CR]) + c) + d));
    SameText(Ahead(t, i), t[i - 1], b, c, d);
    RawInTwo(t, i);
  }

  lemma RawInTwo(t: seq<Text>, i: nat)
    requires 0 < i < |t|
    ensures Ahead(t, i) + Raw(t[i - 1..], LF) == Raw(t, LF)
  {
    if i > 1 {
      assert t == t[..i - 1] + t[i - 1..];
      RawConcat(t[..i - 1], t[i - 1..], LF);
    } else {
      assert t[0..] == t && [] + Raw(t, LF) == Raw(t, LF);
    }
  }

  lemma AheadPieces(t: seq<Text>, i: nat)
    requires 0 < i < |t| && NoDelimiter(t, LF)
    ensures |Split(Ahead(t, i), LF)| == i - 1 && (Ahead(t, i) == [] || EndsWith(Ahead(t, i), LF))
  {
    if i > 1 {
      var u := t[..i - 1];
      TokensSnoc(Raw(u, LF), LF);
      RawTokens(u, LF);
      assert Last(Tokens(Ahead(t, i), LF)) == [];
      SplitPieces(Ahead(t, i));
    }
  }

  lemma PieceBefore(b: Text, rest: Text)
    requires LF !in b
    ensures Pieces(b + [LF] + rest) != [] && Pieces(b + [LF] + rest)[0] == b
  {
    TokensSplit(b, rest, LF);
    TokensOf(b);
  }

  lemma AroundPieces(a: Text, b: Text)
    requires LF !in a && LF !in b
    ensures Pieces(a + [LF] + (b + [CR])) == [a, b + [CR]]
  {
    TokensSplit(a, b + [CR], LF);
    TokensOf(a);
    TokensOf(b + [CR]);
  }

  lemma BehindPiece(t: seq<Text>, i: nat, j: nat)
    requires 0 < i < |t| && j + 1 < |t[i]| && NoDelimiter(t, LF)
    ensures Pieces(Behind(t, i, j)) != [] && Pieces(Behind(t, i, j))[0] == t[i][j + 1..]
  {
    var c := t[i][j + 1..];
    assert LF !in c;
    if i + 1 < |t| {
      assert Behind(t, i, j) == c + [LF] + Raw(t[i + 1..], LF);
      PieceBefore(c, Raw(t[i + 1..], LF));
    } else {
      assert Behind(t, i, j) == c;
      TokensOf(c);
    }
  }

  lemma HalvesShorter(s: Text, j: nat)
    requires j + 1 < |s|
    ensures j + |StripCR(s[j + 1..])| < |StripCR(s)|
  {
    assert EndsWith(s, CR) == EndsWith(s[j + 1..], CR);
  }

  lemma SplitEnds(x: Text)
    requires x != []
    ensures Split(x, LF) != [] && |Split(x, LF)| == |Pieces(x)|
    ensures |Last(Split(x, LF))| <= |Last(StreamLines(x))| && |Split(x, LF)[0]| <= |StreamLines(x)[0]|
  {
    SplitPieces(x);
  }

  lemma LastLine(x: Text, a: Text)
    requires Pieces(x) != [] && Last(Pieces(x)) == a + [CR]
    ensures Last(StreamLines(x)) == a
  {
    assert (a + [CR])[..|a|] == a;
  }

  /** The two sides of a carriage return lose it, and nothing makes up for that. */
  lemma ShorterLine(t: seq<Text>, i: nat, j: nat)
    requires 0 < i < |t| && j + 1 < |t[i]| && t[i][j] == CR && NoDelimiter(t, LF)
    ensures var x, y := Split(Around(t, i, j), LF), Split(Behind(t, i, j), LF);
            |x| == 2 && y != [] && |x[1]| + |y[0]| < |StripCR(t[i])|
  {
    var x, y, b := Around(t, i, j), Behind(t, i, j), t[i][..j];
    assert b + [CR] <= t[i] && LF !in b;
    AroundPieces(t[i - 1], b);
    BehindPiece(t, i, j);
    LastLine(x, b);
    HalvesShorter(t[i], j);
    SplitEnds(x);
    SplitEnds(y);
    assert StreamLines(y)[0] == StripCR(t[i][j + 1..]);
  }

  lemma CutStream(s: Text, t: seq<Text>, i: nat, j: nat)
    requires NUL !in s && t == Tokens(s, LF) && 0 < i < |t| && j < |t[i]| && t[i][j] == CR
    ensures NUL !in Ahead(t, i) && NUL !in Around(t, i, j) && NUL !in Behind(t, i, j)
    ensures var feed := Reads([Ahead(t, i), Around(t, i, j), Behind(t, i, j)]);
            Orderly(feed, false) && Stream(feed) == s
  {
    var z, x, y := Ahead(t, i), Around(t, i, j), Behind(t, i, j);
    TokensRaw(s, LF);
    CutJoins(t, i, j);
    NulFree(s, z, x, y);
    ThreeReads(z, x, y);
    ReadsOrderly([z, x, y], false);
  }

  lemma CutLines(t: seq<Text>, i: nat, j: nat)
    requires 0 < i < |t| && j + 1 < |t[i]| && t[i][j] == CR && NoDelimiter(t, LF)
    requires NUL !in Ahead(t, i) && NUL !in Around(t, i, j) && NUL !in Behind(t, i, j)
    ensures var lines := Drain(START, Reads([Ahead(t, i), Around(t, i, j), Behind(t, i, j)])).lines;
            |lines| > i && |lines[i]| < |StripCR(t[i])|
  {
    var z, x, y := Ahead(t, i), Around(t, i, j), Behind(t, i, j);
    AheadPieces(t, i);
    ShorterLine(t, i, j);
    assert x[|t[i - 1]|] == LF && x[|x| - 1] == CR;
    var later := LaterLine(z, x, y);
    ThreeReads(z, x, y);
    assert Lead(x) + Lead(y) == [Data(x), Data(y)];
    assert (Split(z, LF) + later)[i] == later[1];
  }

  /** A carriage return inside a later line gets lost when a read ends behind it. */
  lemma {:induction false} LaterLineShrinks(s: Text, i: nat) returns (feed: seq<Read>)
    requires NUL !in s && 0 < i < |Pieces(s)| && CR in StripCR(Pieces(s)[i])
    ensures Orderly(feed, false) && Stream(feed) == s
    ensures |Drain(START, feed).lines| > i && |Drain(START, feed).lines[i]| < |StreamLines(s)[i]|
  {
    var t := Tokens(s, LF);
    TokensOf(s);
    TokensRaw(s, LF);
    var j :| 0 <= j < |StripCR(t[i])| && StripCR(t[i])[j] == CR;
    feed := Reads([Ahead(t, i), Around(t, i, j), Behind(t, i, j)]);
    CutStream(s, t, i, j);
    CutLines(t, i, j);
    assert StreamLines(s)[i] == StripCR(t[i]);
  }

  /** On a stream that is not tame some cut makes the reader deliver a line that is none of the
      stream's at its place. */
  lemma {:induction false} PrefixBreaks(s: Text) returns (feed: seq<Read>)
    requires NUL !in s && !Tame(s)
    ensures Orderly(feed, false) && Stream(feed) == s && !(Drain(START, feed).lines <= StreamLines(s))
  {
    var p := Pieces(s);
    if p != [] && EndsWith(StripCR(p[0]), CR) {
      feed := FirstLineShrinks(s);
    } else {
      var i :| 0 < i < |p| && CR in StripCR(p[i]);
      feed := LaterLineShrinks(s, i);
    }
  }

  /** Wherever and however a stream is cut, what is delivered is a prefix of its lines: exactly
      if the stream is tame. */
  lemma {:induction false} PrefixExact(s: Text)
    requires NUL !in s
    ensures (forall feed :: Orderly(feed, false) && Stream(feed) == s ==> Drain(START, feed).lines <= StreamLines(s))
            <==> Tame(s)
  {
    if Tame(s) {
      forall feed | Orderly(feed, false) && Stream(feed) == s
        ensures Drain(START, feed).lines <= StreamLines(s)
      {
        EarlyEnd(feed);
      }
    } else {
      var feed := PrefixBreaks(s);
    }
  }

  /** Any stream that is not framable has a cut that changes its lines. */
  lemma {:induction false} SomeChunkingBreaks(s: Text) returns (feed: seq<Read>)
    requires NUL !in s && !Framable(s)
    ensures Orderly(feed, false) && Stream(feed) == s && Drain(START, feed).lines != StreamLines(s)
  {
    if Tame(s) {
      feed := Reads([s]);
      OneRead(s);
      ReadsOrderly([s], false);
      LastLineIsLost(s);
    } else {
      feed := PrefixBreaks(s);
    }
  }

  /** Every way of cutting a stream gives its lines exactly when the stream is framable. */
  lemma {:induction false} ChunkingExact(s: Text)
    requires NUL !in s
    ensures (forall feed :: Orderly(feed, false) && Stream(feed) == s ==> Drain(START, feed).lines == StreamLines(s))
            <==> Framable(s)
  {
    if Framable(s) {
      forall feed | Orderly(feed, false) && Stream(feed) == s
        ensures Drain(START, feed).lines == StreamLines(s)
      {
        AnyChunking(feed);
      }
    } else {
      var feed := SomeChunkingBreaks(s);
    }
  }

  // ----- ends of file and reads that would block

  /** No bytes come after the end of the connection. */
  predicate SilentAfterEnd(feed: seq<Read>) {
    forall i, j :: 0 <= i < j < |feed| && (feed[i].Eof? || feed[i].BadFd?) ==> !feed[j].Data?
  }

  predicate NoData(feed: seq<Read>) {
    forall i :: 0 <= i < |feed| ==> !feed[i].Data?
  }

  /** While connected, a fragment is the last value of a buffer whose tail pointer is in place. */
  predicate Sound(c: Conn) {
    c.connected && c.fragmented ==> c.buf != [] && c.tailed
  }

  lemma {:induction false} GatherSilent(line: Text, connected: bool, feed: seq<Read>)
    requires SilentAfterEnd(feed) && (!connected ==> line == [] && NoData(feed))
    ensures var (g, connected', rest) := Gather(line, connected, feed);
            && SilentAfterEnd(rest) && (!connected' ==> NoData(rest)) && (connected' ==> connected)
            && (!connected ==> !g.Got?) && (g.Got? && connected' ==> LF in g.line)
    decreases |feed|
  {
    if feed != [] {
      var rest := feed[1..];
      assert forall i :: 0 <= i < |rest| ==> rest[i] == feed[i + 1];
      match feed[0]
      case Intr => GatherSilent(line, connected, rest);
      case Data(bytes) =>
        var l := line + CString(bytes);
        if connected && LF !in l {
          GatherSilent(l, connected, rest);
        }
      case _ =>
    }
  }

  /** Whatever the bytes, a call never finds a fragment without its buffer. */
  lemma CallSound(c: Conn, feed: seq<Read>)
    requires Sound(c) && SilentAfterEnd(feed) && (!c.connected ==> NoData(feed))
    ensures var (reply, c', rest) := Readline(c, feed);
            reply != LogicError && Sound(c') && SilentAfterEnd(rest) && (!c'.connected ==> NoData(rest))
  {
    if !(c.buf != [] && !c.fragmented) {
      GatherSilent([], c.connected, feed);
      var (g, connected, _) := Gather([], c.connected, feed);
      if g.Got? {
        SplitPieces(g.line);
        if connected {
          TokensOf(g.line);
        }
      }
    }
  }

  /** Neither "logic error" of socket_readline can happen in a session. */
  lemma {:induction false} NoLogicError(c: Conn, feed: seq<Read>)
    requires Sound(c) && SilentAfterEnd(feed) && (!c.connected ==> NoData(feed))
    ensures Drain(c, feed).end == Failed
    decreases |feed|, |c.buf|
  {
    CallSound(c, feed);
    var (reply, c', rest) := Readline(c, feed);
    if reply.Line? || reply.Timeout? {
      NoLogicError(c', rest);
    }
  }

  lemma EndBehindA(rest: seq<Read>)
    ensures Readline(START, [Data("a"), Eof] + rest) == (Line("a"), Conn([], true, true, false), rest)
  {
    var feed := [Data("a"), Eof] + rest;
    assert feed[1..] == [Eof] + rest && feed[1..][1..] == rest && [] + CString("a") == "a";
    assert Gather([], true, feed) == Gather("a", true, feed[1..]) == (Got("a"), false, rest);
    TokensOf("a");
    assert Chomp("a") == "a" && Split("a", LF) == ["a"] && [] + ["a"] == ["a"];
  }

  lemma LateLine()
    ensures Readline(Conn([], true, true, false), [Data("b\n")]).0 == LogicError
  {
    var feed := [Data("b\n")];
    assert feed[1..] == [] && [] + CString("b\n") == "b\n";
    assert Gather([], false, feed) == (Got("b\n"), false, []);
  }

  /** Bytes after an end of file do run into it. */
  lemma LogicErrorAfterEof()
    ensures Drain(START, [Data("a"), Eof, Data("b\n")]) == Session(["a"], LogicError)
  {
    EndBehindA([Data("b\n")]);
    LateLine();
    assert [Data("a"), Eof] + [Data("b\n")] == [Data("a"), Eof, Data("b\n")];
    assert Drain(Conn([], true, true, false), [Data("b\n")]) == Session([], LogicError);
  }

  /** A read that would block drops the part of a line gathered before it: the session goes
      on as if it had never come. */
  lemma TimeoutLosesText(x: Text, feed: seq<Read>)
    requires LF !in x
    ensures Drain(START, [Data(x), Again] + feed) == Drain(START, feed)
  {
    var all := [Data(x), Again] + feed;
    assert all[1..] == [Again] + feed && all[1..][1..] == feed;
    assert Gather([], true, all) == Gather([] + CString(x), true, all[1..]);
  }
}
