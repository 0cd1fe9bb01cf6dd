/** Line endings written out: what becomes of lines that end in "\n" or "\r\n". */
module LineEndings {
  import opened Bytes
  import opened Lines
  import opened Framing
  import opened Chunking

  /** str_chomp on any text: it takes away "\r\n", or else "\n", or else "\r", or nothing. */
  lemma ChompExact(s: Text)
    ensures Chomp(s + "\r\n") == s
    ensures s == [] || s[|s| - 1] != '\r' ==> Chomp(s + "\n") == s
    ensures Chomp(s + "\r") == s
    ensures s == [] || (s[|s| - 1] != '\r' && s[|s| - 1] != '\n') ==> Chomp(s) == s
  {
    assert (s + "\r\n")[..|s| + 1] == s + "\r" && (s + "\r")[..|s|] == s && (s + "\n")[..|s|] == s;
  }

  /** Neither of the two characters that end lines. */
  predicate Clean(x: Text) { '\r' !in x && '\n' !in x }

  /** A text made of these lines; `crlf` says which of them end in "\r\n". */
  function Ended(lines: seq<Text>, crlf: seq<bool>): Text
    requires |crlf| == |lines|
  {
    if lines == [] then [] else lines[0] + (if crlf[0] then "\r\n" else "\n") + Ended(lines[1..], crlf[1..])
  }

  lemma OneEnded(x: Text, crlf: bool)
    requires Clean(x)
    ensures var e := x + if crlf then "\r\n" else "\n";
            EndsWith(e, LF) && Pieces(e) == [x + if crlf then "\r" else []] && StreamLines(e) == [x]
  {
    var a := x + if crlf then "\r" else [];
    assert x + (if crlf then "\r\n" else "\n") == a + [LF];
    TokensSkip(a, [LF], LF);
    TokensOfOne(LF);
    assert a + [] == a && Pieces(a + [LF]) == [a];
    assert StripCR(a) == x;
  }

  /** The lines of such a text are what stands in front of the endings, and it arrives the same
      however it is cut. */
  lemma {:induction false} EndedLines(lines: seq<Text>, crlf: seq<bool>)
    requires |crlf| == |lines| && forall i :: 0 <= i < |lines| ==> Clean(lines[i])
    ensures StreamLines(Ended(lines, crlf)) == lines && Terminated(Ended(lines, crlf)) && Tidy(Ended(lines, crlf))
  {
    var s := Ended(lines, crlf);
    if lines == [] {
      assert Pieces(s) == [];
    } else {
      var e, y := lines[0] + (if crlf[0] then "\r\n" else "\n"), Ended(lines[1..], crlf[1..]);
      OneEnded(lines[0], crlf[0]);
      EndedLines(lines[1..], crlf[1..]);
      CutAfterNewline(e, y);
      EndedBehind(e, y);
      FirstAndRest(lines);
    }
  }

  lemma EndedBehind(e: Text, y: Text)
    requires EndsWith(e, LF) && Terminated(y)
    ensures Terminated(e + y)
  {
    if y == [] {
      assert e + y == e;
    }
  }

  lemma FirstAndRest(lines: seq<Text>)
    requires lines != []
    ensures [lines[0]] + lines[1..] == lines
  {
  }

  /** str_split at newlines gives exactly the lines. */
  lemma SplitEnded(lines: seq<Text>, crlf: seq<bool>)
    requires |crlf| == |lines| && forall i :: 0 <= i < |lines| ==> Clean(lines[i])
    ensures Split(Ended(lines, crlf), '\n') == lines
  {
    EndedLines(lines, crlf);
    if lines != [] {
      SplitPieces(Ended(lines, crlf));
      StripLastSame(lines);
    }
  }

  /** socket_readline delivers exactly the lines, however an orderly feed cuts the text. */
  lemma EndedDelivered(lines: seq<Text>, crlf: seq<bool>, feed: seq<Read>)
    requires |crlf| == |lines| && forall i :: 0 <= i < |lines| ==> Clean(lines[i])
    requires Orderly(feed, false) && Stream(feed) == Ended(lines, crlf)
    ensures Drain(START, feed) == Session(lines, Failed)
  {
    EndedLines(lines, crlf);
    TidyIsTame(Ended(lines, crlf));
    AnyChunking(feed);
  }

  /** What read(2) returns behind an octet 0 is not seen. */
  lemma CutAtNul(line: Text, connected: bool, x: Text, y: Text, rest: seq<Read>)
    requires '\0' !in x
    ensures Gather(line, connected, [Data(x + ['\0'] + y)] + rest) == Gather(line, connected, [Data(x)] + rest)
  {
    CStringEnds(x, y);
    assert ([Data(x)] + rest)[1..] == rest == ([Data(x + ['\0'] + y)] + rest)[1..];
  }
}
