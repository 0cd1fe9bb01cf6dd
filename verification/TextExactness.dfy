/** Exactly which tables come back from hash_serialize and hash_deserialize. */
module TextExactness {
  import opened Bytes
  import opened Lines
  import opened Tables
  import opened TableRuns
  import opened Framing
  import opened HashText

  /** Values with two newlines, the second at the end, that come back: the first newline is
      written behind a backslash and found again, and the loader adds one at the end. */
  predicate TwoLines(v: Text) {
    var q := Tokens(v, LF);
    |q| == 3 && q[1] != [] && !EndsWith(q[1], CR) && !EndsWith(q[1], BACKSLASH) && q[2] == []
  }

  predicate Returns(v: Text) { GoodValue(v) || TwoLines(v) }

  predicate GoodKeys(b: Bucket) { forall i :: 0 <= i < |b| ==> GoodKey(b[i].0) }

  // ----- the lines of a table

  /** The line of an entry whose value goes on. */
  function OpenLine(k: Text, h: Text): Text { k + ": " + h + [BACKSLASH] }

  /** The lines of one pair. */
  function PairLines(p: Pair): (r: seq<Text>)
    ensures r != []
  {
    var q := Tokens(p.1, LF);
    if |q| == 1 then [p.0 + ": " + p.1] else [OpenLine(p.0, q[0])] + q[1..]
  }

  lemma {:induction false} ContinueAt(h: Text, rest: Text)
    requires LF !in h
    ensures ContinueFirst(h + [LF] + rest) == h + [BACKSLASH, LF] + rest
  {
    var v := h + [LF] + rest;
    if h == [] {
      assert v[1..] == rest;
    } else {
      assert v[1..] == h[1..] + [LF] + rest;
      ContinueAt(h[1..], rest);
    }
  }

  lemma LinesOfPair(p: Pair)
    requires GoodKey(p.0)
    ensures Raw(PairLines(p), LF) == PairLine(p) && NoDelimiter(PairLines(p), LF)
  {
    var k, q := p.0, Tokens(p.1, LF);
    assert LF !in k;
    TokensOf(p.1);
    TokensRaw(p.1, LF);
    if |q| == 1 {
      ContinueNothing(p.1);
    } else {
      var h, rest := q[0], Raw(q[1..], LF);
      ContinueAt(h, rest);
      assert PairLines(p)[1..] == q[1..];
      assert k + ": " + (h + [BACKSLASH, LF] + rest) == OpenLine(k, h) + [LF] + rest;
    }
  }

  function LinesOf(b: Bucket): seq<Text> {
    if b == [] then [] else PairLines(b[0]) + LinesOf(b[1..])
  }

  lemma {:induction false} WrittenLines(b: Bucket)
    requires b != [] && GoodKeys(b)
    ensures LinesOf(b) != [] && Written(b) == Raw(LinesOf(b), LF) + [LF] && NoDelimiter(LinesOf(b), LF)
  {
    LinesOfPair(b[0]);
    var x, y := PairLines(b[0]), LinesOf(b[1..]);
    if |b| == 1 {
      assert b[1..] == [] && x + [] == x;
      assert PairLine(b[0]) + [LF] + [] == PairLine(b[0]) + [LF];
    } else {
      WrittenLines(b[1..]);
      RawConcat(x, y, LF);
      assert (Raw(x, LF) + [LF] + Raw(y, LF)) + [LF] == Raw(x, LF) + [LF] + (Raw(y, LF) + [LF]);
    }
  }

  /** The lines hash_deserialize sees: each has lost a final CR, the last one a second. */
  function ReadLines(b: Bucket): seq<Text> {
    if b == [] then [] else StripLast(StripAll(LinesOf(b)))
  }

  /** Splitting the text of a table gives its lines in order, but for final carriage returns. */
  lemma WrittenSplits(b: Bucket)
    requires GoodKeys(b)
    ensures Split(Written(b), LF) == ReadLines(b)
  {
    if b != [] {
      WrittenLines(b);
      var t := Raw(LinesOf(b), LF);
      RawTokens(LinesOf(b), LF);
      TokensSnoc(t, LF);
      assert Pieces(t + [LF]) == LinesOf(b);
      SplitPieces(t + [LF]);
    }
  }

  lemma StripTail(u: seq<Text>, w: seq<Text>)
    requires w != []
    ensures StripLast(StripAll(u + w)) == StripAll(u) + StripLast(StripAll(w))
  {
    var x, y := StripAll(u), StripAll(w);
    assert StripAll(u + w) == x + y;
    assert Last(x + y) == Last(y) && Init(x + y) == x + Init(y);
  }

  /** The lines of the first pair, and those of the others. */
  lemma ReadFirst(b: Bucket)
    requires |b| > 1
    ensures ReadLines(b) == StripAll(PairLines(b[0])) + ReadLines(b[1..])
  {
    var rest := b[1..];
    assert LinesOf(rest) == PairLines(rest[0]) + LinesOf(rest[1..]);
    StripTail(PairLines(b[0]), LinesOf(rest));
  }

  // ----- reading single lines

  /** What becomes of a table and of the open entry with the next line. */
  lemma LoadFirst(t: Hash, line: Text, rest: seq<Text>, key: Text, val: Text, multiline: bool)
    ensures Load(t, [line] + rest, key, val, multiline) ==
            if line == [] then Load(t, rest, key, val, multiline)
            else
              match if key == [] then MatchLine(line) else Some((key, val + line))
              case None => ParseError(t)
              case Some((k, v)) =>
                if EndsWith(v, BACKSLASH) then Load(t, rest, k, v[|v| - 1 := LF], true)
                else
                  match TableRuns.Set(t, k, if multiline then v + [LF] else v)
                  case None => NullFault
                  case Some(t') => Load(t', rest, [], [], false)
  {
    assert ([line] + rest)[1..] == rest;
  }

  lemma MatchParts(line: Text)
    requires MatchLine(line).Some?
    ensures var (k, v) := MatchLine(line).value;
            && k != [] && LF !in k && |v| + 2 < |line| && (EndsWith(line, BACKSLASH) ==> EndsWith(v, BACKSLASH))
  {
    var p := FirstColon(line, 0).value;
    var s := KeyStart(line, p);
    assert forall i :: 0 <= i < p - s ==> line[s..p][i] == line[s + i];
  }

  /** The open line of an entry. */
  lemma LoadOpen(t: Hash, k: Text, h: Text, rest: seq<Text>)
    requires GoodKey(k)
    ensures Load(t, [OpenLine(k, h)] + rest, [], [], false) == Load(t, rest, k, h + [LF], true)
  {
    var v := h + [BACKSLASH];
    assert OpenLine(k, h) == k + ": " + v && v[|v| - 1 := LF] == h + [LF];
    LineMatches(k, v);
    LoadFirst(t, OpenLine(k, h), rest, [], [], false);
  }

  lemma LoadPlain(t: Hash, k: Text, v: Text, rest: seq<Text>)
    requires GoodKey(k)
    ensures Load(t, [k + ": " + v] + rest, [], [], false) ==
            if EndsWith(v, BACKSLASH) then Load(t, rest, k, v[|v| - 1 := LF], true)
            else
              match TableRuns.Set(t, k, v)
              case None => NullFault
              case Some(t') => Load(t', rest, [], [], false)
  {
    LineMatches(k, v);
    LoadFirst(t, k + ": " + v, rest, [], [], false);
  }

  // ----- tables that come back

  predicate AllReturn(b: Bucket) { forall i :: 0 <= i < |b| ==> Returns(b[i].1) }

  lemma StripKept(v: seq<Text>)
    requires v != [] && forall i :: 0 <= i < |v| ==> !EndsWith(v[i], CR)
    ensures StripAll(v) == v && StripLast(StripAll(v)) == v
  {
    assert Init(v) + [Last(v)] == v;
  }

  lemma ReturningLines(p: Pair)
    requires GoodKey(p.0) && Returns(p.1)
    ensures forall i :: 0 <= i < |PairLines(p)| ==> !EndsWith(PairLines(p)[i], CR)
  {
    TokensOf(p.1);
    if p.1 != [] && |Tokens(p.1, LF)| == 1 {
      var line := p.0 + ": " + p.1;
      assert line[|line| - 1] == p.1[|p.1| - 1];
    }
  }

  lemma {:induction false} ReturningRead(b: Bucket)
    requires GoodKeys(b) && AllReturn(b)
    ensures ReadLines(b) == LinesOf(b)
  {
    if |b| == 1 {
      ReturningLines(b[0]);
      assert b[1..] == [] && LinesOf(b) == PairLines(b[0]) + [] == PairLines(b[0]);
      StripKept(PairLines(b[0]));
    } else if b != [] {
      ReturningLines(b[0]);
      StripKept(PairLines(b[0]));
      ReadFirst(b);
      ReturningRead(b[1..]);
    }
  }

  lemma TwoLinesParts(v: Text)
    requires |Tokens(v, LF)| == 3 && Tokens(v, LF)[2] == []
    ensures var q := Tokens(v, LF); v == q[0] + [LF] + q[1] + [LF] && |q| == 3
  {
    var q := Tokens(v, LF);
    TokensRaw(v, LF);
    var u := q[1..];
    var w := u[1..];
    assert u[0] == q[1] && w == [q[2]] && Raw(w, LF) == [];
    assert Raw(u, LF) == q[1] + [LF] + Raw(w, LF) == q[1] + [LF];
    assert q[0] + [LF] + (q[1] + [LF]) == q[0] + [LF] + q[1] + [LF];
  }

  /** The lines of a pair that comes back set that pair. */
  lemma LoadReturning(t: Hash, p: Pair, rest: seq<Text>)
    requires GoodKey(p.0) && Returns(p.1)
    ensures Load(t, PairLines(p) + rest, [], [], false) ==
            match TableRuns.Set(t, p.0, p.1) case None => NullFault case Some(t') => Load(t', rest, [], [], false)
  {
    var k, q := p.0, Tokens(p.1, LF);
    TokensOf(p.1);
    if |q| == 1 {
      LoadPlain(t, k, p.1, rest);
    } else {
      TwoLinesParts(p.1);
      var end := [[]] + rest;
      assert PairLines(p) + rest == [OpenLine(k, q[0])] + ([q[1]] + end);
      LoadOpen(t, k, q[0], [q[1]] + end);
      var v := q[0] + [LF] + q[1];
      assert v[|v| - 1] == q[1][|q[1]| - 1];
      LoadFirst(t, q[1], end, k, q[0] + [LF], true);
      var t1 := TableRuns.Set(t, k, v + [LF]);
      if t1.Some? {
        LoadFirst(t1.value, [], rest, [], [], false);
      }
    }
  }

  lemma {:induction false} LoadSetsPairs(t: Hash, b: Bucket)
    requires GoodKeys(b) && AllReturn(b)
    ensures Load(t, LinesOf(b), [], [], false) ==
            match SetPairs(t, b) case Some(t') => Loaded(t') case None => NullFault
    decreases |b|
  {
    if b != [] {
      LoadReturning(t, b[0], LinesOf(b[1..]));
      var t1 := TableRuns.Set(t, b[0].0, b[0].1);
      if t1.Some? {
        LoadSetsPairs(t1.value, b[1..]);
      }
    }
  }

  /** A table whose values all come back one by one comes back as a whole exactly when every
      stored key can be found. */
  lemma {:induction false} RoundTripOfReturning(t: Hash, m: Dict)
    requires Represents(t, m) && GoodKeys(AllPairs(t)) && AllReturn(AllPairs(t))
    ensures (Deserialized(NEW_TABLE, Written(AllPairs(t))).Loaded?
             && Represents(Deserialized(NEW_TABLE, Written(AllPairs(t))).t, m)) <==> AllKeysFound(t)
    ensures AllKeysFound(t) ==> Deserialized(NEW_TABLE, Written(AllPairs(t))) == Loaded(t)
  {
    WrittenSplits(AllPairs(t));
    ReturningRead(AllPairs(t));
    LoadSetsPairs(NEW_TABLE, AllPairs(t));
    KeysListed(t, m);
    FromTheStart(t);
    if AllKeysFound(t) {
      Rebuilds(t, 0, 0, t.count);
    } else {
      var z, i :| 0 <= z < SLOTS && 0 <= i < |t.buckets[z]| && Shadowed(t.buckets[z], t.buckets[z][i].0);
      RebuildLoses(t, 0, 0, 0, z, i);
    }
  }

  // ----- one entry with any value

  function Total(lines: seq<Text>): nat {
    if lines == [] then 0 else |lines[0]| + Total(lines[1..])
  }

  /** The text is nowhere in the table. */
  predicate Spared(t: Hash, v: Text) {
    forall s, i :: 0 <= s < SLOTS && 0 <= i < |t.buckets[s]| ==> t.buckets[s][i].0 != v && t.buckets[s][i].1 != v
  }

  lemma SetSpares(t: Hash, v: Text, k: Text, x: Text)
    requires Spared(t, v) && k != v && x != v
    ensures TableRuns.Set(t, k, x).Some? ==> Spared(TableRuns.Set(t, k, x).value, v)
  {
  }

  /** Lines too short to make up a text do not put it into the table. */
  lemma {:induction false} ShortLines(t: Hash, v: Text, lines: seq<Text>, key: Text, val: Text, multiline: bool)
    requires Spared(t, v) && LF in v && LF !in key && (if key == [] then 0 else |val|) + Total(lines) + 1 < |v|
    ensures var r := Load(t, lines, key, val, multiline); r.Loaded? ==> Spared(r.t, v)
    decreases |lines|
  {
    if lines != [] {
      var line, rest := lines[0], lines[1..];
      assert [line] + rest == lines;
      LoadFirst(t, line, rest, key, val, multiline);
      if line == [] {
        ShortLines(t, v, rest, key, val, multiline);
      } else {
        var entry := if key == [] then MatchLine(line) else Some((key, val + line));
        if entry.Some? {
          var (k, x) := entry.value;
          if key == [] {
            MatchParts(line);
          }
          if EndsWith(x, BACKSLASH) {
            ShortLines(t, v, rest, k, x[|x| - 1 := LF], true);
          } else {
            var y := if multiline then x + [LF] else x;
            SetSpares(t, v, k, y);
            var t1 := TableRuns.Set(t, k, y);
            if t1.Some? {
              ShortLines(t1.value, v, rest, [], [], false);
            }
          }
        }
      }
    }
  }

  lemma {:induction false} TotalShrinks(q: seq<Text>, c: seq<Text>)
    requires |c| == |q| && forall i :: 0 <= i < |q| ==> |c[i]| <= |q[i]|
    ensures Total(c) <= Total(q)
  {
    if q != [] {
      TotalShrinks(q[1..], c[1..]);
    }
  }

  lemma {:induction false} RawLength(q: seq<Text>)
    requires q != []
    ensures |Raw(q, LF)| == Total(q) + |q| - 1
  {
    if |q| == 1 {
      assert q[1..] == [];
    } else {
      RawLength(q[1..]);
    }
  }

  /** Of the last lines of an entry, none with text in it completes a value that ends in text. */
  lemma LastOne(t: Hash, k: Text, val: Text, c: Text, v: Text)
    requires k != [] && v != [] && LF in v && !EndsWith(v, LF) && Spared(t, v) && k != v
    ensures var r := Load(t, [c], k, val, true); r.Loaded? ==> Spared(r.t, v)
  {
    assert [c] + [] == [c];
    LoadFirst(t, c, [], k, val, true);
    SetSpares(t, v, k, val + c + [LF]);
  }

  /** What the loader makes of an entry whose value has a newline. */
  lemma OpenEntry(k: Text, v: Text) returns (c: seq<Text>)
    requires GoodKey(k) && LF in v
    ensures var q := Tokens(v, LF);
            && |q| >= 2 && c == StripLast(StripAll(q[1..])) && |c| == |q| - 1
            && (forall i :: 0 <= i < |c| ==> |c[i]| <= |q[i + 1]|)
            && Deserialized(NEW_TABLE, Written([(k, v)])) == Load(NEW_TABLE, c, k, q[0] + [LF], true)
  {
    var b, q := [(k, v)], Tokens(v, LF);
    TokensOf(v);
    WrittenSplits(b);
    assert b[1..] == [] && LinesOf(b) == PairLines(b[0]) + [] == PairLines(b[0]);
    StripTail([OpenLine(k, q[0])], q[1..]);
    assert StripAll([OpenLine(k, q[0])]) == [OpenLine(k, q[0])];
    c := StripLast(StripAll(q[1..]));
    StripShortens(q[1..]);
    LoadOpen(NEW_TABLE, k, q[0], c);
  }

  lemma StripShortens(q: seq<Text>)
    requires q != []
    ensures var c := StripLast(StripAll(q));
            |c| == |q| && forall i :: 0 <= i < |q| ==> |c[i]| <= |q[i]|
  {
  }

  lemma NewSpares(v: Text)
    ensures Spared(NEW_TABLE, v)
  {
  }

  lemma ManyLong(v: Text)
    requires |Tokens(v, LF)| >= 4
    ensures var q := Tokens(v, LF); |q[0]| + Total(StripLast(StripAll(q[1..]))) + 3 <= |v|
  {
    var rest := Tokens(v, LF)[1..];
    StripShortens(rest);
    TotalShrinks(rest, StripLast(StripAll(rest)));
    TokensRaw(v, LF);
    RawLength(Tokens(v, LF));
  }

  /** A value with three newlines or more does not come back. */
  lemma ManyLines(k: Text, v: Text)
    requires GoodKey(k) && |Tokens(v, LF)| >= 4
    ensures var r := Deserialized(NEW_TABLE, Written([(k, v)])); r.Loaded? ==> Spared(r.t, v)
  {
    TokensOf(v);
    var c := OpenEntry(k, v);
    ManyLong(v);
    NewSpares(v);
    OneLineKey(k);
    ShortLines(NEW_TABLE, v, c, k, Tokens(v, LF)[0] + [LF], true);
  }

  lemma OneLineKey(k: Text)
    requires GoodKey(k)
    ensures LF !in k
  {
  }

  /** Neither does a value with a newline that ends in text. */
  lemma TextAtEnd(k: Text, v: Text)
    requires GoodKey(k) && 2 <= |Tokens(v, LF)| <= 3 && !EndsWith(v, LF)
    ensures var r := Deserialized(NEW_TABLE, Written([(k, v)])); r.Loaded? ==> Spared(r.t, v)
  {
    TokensOf(v);
    var c := OpenEntry(k, v);
    if |c| == 1 {
      OneMore(k, v, Tokens(v, LF)[0], c);
    } else {
      TwoMore(k, v, c);
    }
  }

  lemma OneMore(k: Text, v: Text, h: Text, c: seq<Text>)
    requires GoodKey(k) && LF in v && !EndsWith(v, LF) && |c| == 1
    ensures var r := Load(NEW_TABLE, c, k, h + [LF], true); r.Loaded? ==> Spared(r.t, v)
  {
    NewSpares(v);
    assert c == [c[0]] && LF !in k;
    LastOne(NEW_TABLE, k, h + [LF], c[0], v);
  }

  lemma TwoMore(k: Text, v: Text, c: seq<Text>)
    requires GoodKey(k) && |Tokens(v, LF)| == 3 && !EndsWith(v, LF) && LF in v
    requires |c| == 2 && |c[0]| <= |Tokens(v, LF)[1]| && |c[1]| <= |Tokens(v, LF)[2]|
    ensures var r := Load(NEW_TABLE, c, k, Tokens(v, LF)[0] + [LF], true); r.Loaded? ==> Spared(r.t, v)
  {
    var val, d := Tokens(v, LF)[0] + [LF], c[1];
    var x := val + c[0];
    NewSpares(v);
    assert c == [c[0]] + [d] && LF !in k;
    LoadFirst(NEW_TABLE, c[0], [d], k, val, true);
    if c[0] == [] {
      LastOne(NEW_TABLE, k, val, d, v);
    } else if EndsWith(x, BACKSLASH) {
      LastOne(NEW_TABLE, k, x[|x| - 1 := LF], d, v);
    } else {
      SecondText(k, v, c[0], d);
    }
  }

  lemma OneTotal(d: Text)
    ensures Total([d]) == |d|
  {
    assert [d][1..] == [];
  }

  lemma ThreeTotal(q: seq<Text>)
    requires |q| == 3
    ensures Total(q) == |q[0]| + |q[1]| + |q[2]|
  {
    var u := q[1..];
    assert u[1..] == [q[2]];
    OneTotal(q[2]);
  }

  lemma SecondText(k: Text, v: Text, c: Text, d: Text)
    requires GoodKey(k) && |Tokens(v, LF)| == 3 && !EndsWith(v, LF) && c != []
    requires |c| <= |Tokens(v, LF)[1]| && |d| <= |Tokens(v, LF)[2]|
    ensures var t := TableRuns.Set(NEW_TABLE, k, Tokens(v, LF)[0] + [LF] + c + [LF]);
            t.Some? ==> var r := Load(t.value, [d], [], [], false); r.Loaded? ==> Spared(r.t, v)
  {
    var q := Tokens(v, LF);
    TokensOf(v);
    TokensRaw(v, LF);
    RawLength(q);
    ThreeTotal(q);
    SetSpares(NEW_TABLE, v, k, q[0] + [LF] + c + [LF]);
    OneTotal(d);
    var t := TableRuns.Set(NEW_TABLE, k, q[0] + [LF] + c + [LF]);
    if t.Some? {
      ShortLines(t.value, v, [d], [], [], false);
    }
  }

  lemma BlankRest(q: seq<Text>)
    requires q != [] && Last(q) == []
    ensures |q| == 1 ==> StripLast(StripAll(q)) == [[]]
    ensures |q| == 2 ==> StripLast(StripAll(q)) == [StripCR(q[0])] + [[]]
  {
  }

  /** A value with one newline, at its end, and one with a second newline at the end. */
  lemma NewlineAtEnd(k: Text, v: Text)
    requires GoodKey(k) && 2 <= |Tokens(v, LF)| <= 3 && EndsWith(v, LF)
    ensures Deserialized(NEW_TABLE, Written([(k, v)])) == Loaded(TableRuns.Set(NEW_TABLE, k, v).value) <==> TwoLines(v)
  {
    TokensOf(v);
    var c := OpenEntry(k, v);
    var h, rest := Tokens(v, LF)[0], Tokens(v, LF)[1..];
    BlankRest(rest);
    if |rest| == 1 {
      BlankEnd(NEW_TABLE, k, h + [LF], true);
    } else {
      TwoLinesParts(v);
      TwoLinesBack(k, v, h, rest[0]);
    }
  }

  lemma TwoLinesBack(k: Text, v: Text, h: Text, l: Text)
    requires k != [] && v == h + [LF] + l + [LF]
    ensures Load(NEW_TABLE, [StripCR(l)] + [[]], k, h + [LF], true) == Loaded(TableRuns.Set(NEW_TABLE, k, v).value)
            <==> l != [] && !EndsWith(l, CR) && !EndsWith(l, BACKSLASH)
  {
    var c := StripCR(l);
    CompleteEntry(k, h, c);
    if c != l {
      OtherValue(k, v, h + [LF] + c + [LF]);
    }
  }

  lemma CompleteEntry(k: Text, h: Text, c: Text)
    requires k != []
    ensures Load(NEW_TABLE, [c] + [[]], k, h + [LF], true) ==
            if c == [] || EndsWith(c, BACKSLASH) then ParseError(NEW_TABLE)
            else
              match TableRuns.Set(NEW_TABLE, k, h + [LF] + c + [LF])
              case None => NullFault
              case Some(t') => Loaded(t')
  {
    var val := h + [LF];
    LoadFirst(NEW_TABLE, c, [[]], k, val, true);
    BlankEnd(NEW_TABLE, k, val, true);
    if c != [] {
      var v := val + c;
      if EndsWith(c, BACKSLASH) {
        BlankEnd(NEW_TABLE, k, v[|v| - 1 := LF], true);
      } else {
        var t := TableRuns.Set(NEW_TABLE, k, v + [LF]);
        if t.Some? {
          BlankEnd(t.value, [], [], false);
        }
      }
    }
  }

  lemma BlankEnd(t: Hash, key: Text, val: Text, multiline: bool)
    ensures Load(t, [[]], key, val, multiline) == if key == [] then Loaded(t) else ParseError(t)
  {
    LoadFirst(t, [], [], key, val, multiline);
    var blank: seq<Text> := [[]];
    assert blank + [] == blank;
  }

  lemma OtherValue(k: Text, v: Text, x: Text)
    requires v != x
    ensures TableRuns.Set(NEW_TABLE, k, v).Some? && TableRuns.Set(NEW_TABLE, k, v) != TableRuns.Set(NEW_TABLE, k, x)
  {
    var t, u := TableRuns.Set(NEW_TABLE, k, v).value, TableRuns.Set(NEW_TABLE, k, x).value;
    assert BucketOf(t, k) == [(k, v)] && BucketOf(u, k) == [(k, x)];
  }

  /** One entry comes back exactly when its value is one line ending in neither CR nor backslash,
      or two lines of which the second is such a line and not empty. */
  lemma {:induction false} OneEntryExact(k: Text, v: Text)
    requires GoodKey(k)
    ensures Deserialized(NEW_TABLE, Written([(k, v)])) == Loaded(TableRuns.Set(NEW_TABLE, k, v).value) <==> Returns(v)
  {
    TokensOf(v);
    if LF !in v {
      OneLineEntry(k, v);
    } else if EndsWith(v, LF) && |Tokens(v, LF)| <= 3 {
      NewlineAtEnd(k, v);
    } else {
      if |Tokens(v, LF)| >= 4 {
        ManyLines(k, v);
      } else {
        TextAtEnd(k, v);
      }
      NotSpared(k, v);
    }
  }

  lemma NotSpared(k: Text, v: Text)
    ensures TableRuns.Set(NEW_TABLE, k, v).Some? && !Spared(TableRuns.Set(NEW_TABLE, k, v).value, v)
  {
    var t := TableRuns.Set(NEW_TABLE, k, v).value;
    assert BucketOf(t, k) == [(k, v)] && t.buckets[Slot(k)][0].1 == v;
  }

  /** A line without its one or two final carriage returns. */
  function Bare(v: Text): Text { StripCR(StripCR(v)) }

  lemma BareLine(k: Text, v: Text)
    requires GoodKey(k)
    ensures StripCR(k + ": " + v) == k + ": " + StripCR(v)
  {
    var line := k + ": " + v;
    if EndsWith(v, CR) {
      assert line[..|line| - 1] == k + ": " + v[..|v| - 1];
    }
  }

  lemma OneLineEntry(k: Text, v: Text)
    requires GoodKey(k) && LF !in v
    ensures Deserialized(NEW_TABLE, Written([(k, v)])) == Loaded(TableRuns.Set(NEW_TABLE, k, v).value) <==> Returns(v)
  {
    var b := [(k, v)];
    WrittenSplits(b);
    TokensOf(v);
    assert b[1..] == [] && LinesOf(b) == PairLines(b[0]) + [] == [k + ": " + v];
    BareLine(k, v);
    BareLine(k, StripCR(v));
    assert ReadLines(b) == [k + ": " + Bare(v)] == [k + ": " + Bare(v)] + [];
    LoadPlain(NEW_TABLE, k, Bare(v), []);
    if Bare(v) != v {
      OtherValue(k, v, Bare(v));
    }
  }

  // ----- whole tables

  /** Values of one line, whatever they end in, and the values of two lines that come back. */
  predicate AllSimple(b: Bucket) { forall i :: 0 <= i < |b| ==> OneLine(b[i].1) || TwoLines(b[i].1) }

  /** From `t` to `u` at most `n` entries are added; if as many, all answers of `t` are kept. */
  ghost predicate Keeps(t: Hash, u: Hash, n: nat) {
    && u.count <= t.count + n
    && (u.count == t.count + n ==>
          forall q :: Lookup(BucketOf(t, q), q).Some? ==> Lookup(BucketOf(u, q), q) == Lookup(BucketOf(t, q), q))
  }

  lemma SetKeeps(t: Hash, k: Text, v: Text)
    requires TableRuns.Set(t, k, v).Some?
    ensures var u := TableRuns.Set(t, k, v).value;
            Keeps(t, u, 1) && (u.count == t.count + 1 ==> Lookup(BucketOf(u, k), k) == Some(v))
  {
    var b, u := BucketOf(t, k), TableRuns.Set(t, k, v).value;
    if Search(b, k) == NoHit {
      var c := b + [(k, v)];
      AppendedKey(b, (k, v), k);
      forall q | Lookup(BucketOf(t, q), q).Some?
        ensures Lookup(BucketOf(u, q), q) == Lookup(BucketOf(t, q), q)
      {
        AppendedKey(b, (k, v), q);
        assert BucketOf(u, q) == if Slot(q) == Slot(k) then c else BucketOf(t, q);
      }
    } else {
      assert u.count == t.count;
    }
  }

  lemma {:induction false} AppendedKey(b: Bucket, p: Pair, q: Text)
    ensures KeyIndex(b + [p], q) == if KeyIndex(b, q) < |b| || q == p.0 then KeyIndex(b, q) else |b| + 1
  {
    if b == [] {
      assert (b + [p])[1..] == [];
    } else if b[0].0 != q {
      assert (b + [p])[1..] == b[1..] + [p];
      AppendedKey(b[1..], p, q);
    }
  }

  lemma KeepsBoth(t: Hash, u: Hash, w: Hash, n: nat)
    requires Keeps(t, u, 1) && Keeps(u, w, n)
    ensures Keeps(t, w, n + 1)
  {
    if w.count == t.count + n + 1 {
      assert u.count == t.count + 1;
    }
  }

  /** The value on the line of the first pair, when it has but one. */
  function FirstValue(b: Bucket): Text
    requires b != []
  {
    if |b| == 1 then Bare(b[0].1) else StripCR(b[0].1)
  }

  lemma FirstLine(b: Bucket)
    requires b != [] && GoodKey(b[0].0) && OneLine(b[0].1)
    ensures ReadLines(b) == [b[0].0 + ": " + FirstValue(b)] + ReadLines(b[1..])
  {
    var (k, v) := b[0];
    TokensOf(v);
    BareLine(k, v);
    BareLine(k, StripCR(v));
    assert PairLines(b[0]) == [k + ": " + v] && StripAll(PairLines(b[0])) == [k + ": " + StripCR(v)];
    if |b| == 1 {
      assert b[1..] == [] && LinesOf(b) == PairLines(b[0]) + [] == PairLines(b[0]);
    } else {
      ReadFirst(b);
    }
  }

  lemma FirstLines(b: Bucket)
    requires b != [] && GoodKey(b[0].0) && Returns(b[0].1)
    ensures ReadLines(b) == PairLines(b[0]) + ReadLines(b[1..])
  {
    ReturningLines(b[0]);
    StripKept(PairLines(b[0]));
    if |b| == 1 {
      assert b[1..] == [] && LinesOf(b) == PairLines(b[0]) + [] == PairLines(b[0]);
    } else {
      ReadFirst(b);
    }
  }

  /** An open line opens an entry, or keeps the one before it open. */
  lemma StaysOpen(t: Hash, k: Text, h: Text, rest: seq<Text>, key: Text, val: Text, multiline: bool)
    returns (key': Text, val': Text)
    requires GoodKey(k)
    ensures key' != [] && Load(t, [OpenLine(k, h)] + rest, key, val, multiline) == Load(t, rest, key', val', true)
  {
    if key == [] {
      var x := h + [BACKSLASH];
      assert OpenLine(k, h) == k + ": " + x;
      LineMatches(k, x);
      LoadFirst(t, OpenLine(k, h), rest, key, val, multiline);
      key', val' := k, x[|x| - 1 := LF];
    } else {
      var x := val + OpenLine(k, h);
      LoadFirst(t, OpenLine(k, h), rest, key, val, multiline);
      key', val' := key, x[|x| - 1 := LF];
    }
  }

  lemma TwoLinesKeep(t: Hash, p: Pair, rest: seq<Text>, key: Text, val: Text, multiline: bool) returns (u: Hash)
    requires GoodKey(p.0) && TwoLines(p.1)
    requires Load(t, PairLines(p) + rest, key, val, multiline).Loaded?
    ensures Keeps(t, u, 1) && Load(t, PairLines(p) + rest, key, val, multiline) == Load(u, rest, [], [], false)
  {
    var q := Tokens(p.1, LF);
    var l, end := q[1], [[]] + rest;
    assert PairLines(p) + rest == [OpenLine(p.0, q[0])] + ([l] + end);
    var k, x := StaysOpen(t, p.0, q[0], [l] + end, key, val, multiline);
    u := Closes(t, l, rest, k, x);
  }

  /** A line of text that does not end in a backslash closes the entry. */
  lemma Closes(t: Hash, l: Text, rest: seq<Text>, key: Text, val: Text) returns (u: Hash)
    requires key != [] && l != [] && !EndsWith(l, BACKSLASH) && Load(t, [l] + ([[]] + rest), key, val, true).Loaded?
    ensures Keeps(t, u, 1) && Load(t, [l] + ([[]] + rest), key, val, true) == Load(u, rest, [], [], false)
  {
    var v := val + l;
    assert v[|v| - 1] == l[|l| - 1];
    LoadFirst(t, l, [[]] + rest, key, val, true);
    SetKeeps(t, key, v + [LF]);
    u := TableRuns.Set(t, key, v + [LF]).value;
    LoadFirst(u, [], rest, [], [], false);
  }

  lemma OneLineKeeps(t: Hash, line: Text, rest: seq<Text>, key: Text, val: Text, multiline: bool)
    returns (u: Hash, key': Text, val': Text, multiline': bool)
    requires line != [] && Load(t, [line] + rest, key, val, multiline).Loaded?
    ensures Keeps(t, u, 1) && Load(t, [line] + rest, key, val, multiline) == Load(u, rest, key', val', multiline')
  {
    LoadFirst(t, line, rest, key, val, multiline);
    var (k, x) := (if key == [] then MatchLine(line) else Some((key, val + line))).value;
    if EndsWith(x, BACKSLASH) {
      u, key', val', multiline' := t, k, x[|x| - 1 := LF], true;
    } else {
      var v := if multiline then x + [LF] else x;
      SetKeeps(t, k, v);
      u, key', val', multiline' := TableRuns.Set(t, k, v).value, [], [], false;
    }
  }

  /** Loading the lines of `n` pairs adds at most `n` entries. */
  lemma {:induction false} LoadKeeps(t: Hash, b: Bucket, key: Text, val: Text, multiline: bool)
    requires GoodKeys(b) && AllSimple(b)
    ensures var r := Load(t, ReadLines(b), key, val, multiline); r.Loaded? ==> Keeps(t, r.t, |b|)
    decreases |b|
  {
    var r := Load(t, ReadLines(b), key, val, multiline);
    if b != [] && r.Loaded? {
      var rest, n := b[1..], |b| - 1;
      if OneLine(b[0].1) {
        FirstLine(b);
        var u, k, x, m := OneLineKeeps(t, b[0].0 + ": " + FirstValue(b), ReadLines(rest), key, val, multiline);
        LoadKeeps(u, rest, k, x, m);
        KeepsBoth(t, u, r.t, n);
      } else {
        FirstLines(b);
        var u := TwoLinesKeep(t, b[0], ReadLines(rest), key, val, multiline);
        LoadKeeps(u, rest, [], [], false);
        KeepsBoth(t, u, r.t, n);
      }
    }
  }

  /** Fewer entries than pairs, or a wrong answer. */
  ghost predicate Damaged(t: Hash, u: Hash, b: Bucket) {
    || u.count < t.count + |b|
    || exists i :: 0 <= i < |b| && Lookup(BucketOf(u, b[i].0), b[i].0) != Some(b[i].1)
  }

  lemma BadLine(t: Hash, b: Bucket)
    requires b != [] && GoodKeys(b) && AllSimple(b) && !Returns(b[0].1)
    ensures var r := Load(t, ReadLines(b), [], [], false); r.Loaded? ==> Damaged(t, r.t, b)
  {
    var r := Load(t, ReadLines(b), [], [], false);
    var k, v, w, rest := b[0].0, b[0].1, FirstValue(b), b[1..];
    FirstLine(b);
    LoadPlain(t, k, w, ReadLines(rest));
    if EndsWith(w, BACKSLASH) {
      LoadKeeps(t, rest, k, w[|w| - 1 := LF], true);
    } else if r.Loaded? {
      var u := TableRuns.Set(t, k, w).value;
      SetKeeps(t, k, w);
      LoadKeeps(u, rest, [], [], false);
      WrongValue(t, u, r.t, b, w);
    }
  }

  lemma WrongValue(t: Hash, u: Hash, r: Hash, b: Bucket, w: Text)
    requires b != [] && b[0].1 != w && Keeps(t, u, 1) && Keeps(u, r, |b| - 1)
    requires u.count == t.count + 1 ==> Lookup(BucketOf(u, b[0].0), b[0].0) == Some(w)
    ensures Damaged(t, r, b)
  {
    if r.count == t.count + |b| {
      assert Lookup(BucketOf(r, b[0].0), b[0].0) == Some(w);
    }
  }

  lemma {:induction false} BadValue(t: Hash, b: Bucket)
    requires GoodKeys(b) && AllSimple(b) && !AllReturn(b)
    ensures var r := Load(t, ReadLines(b), [], [], false); r.Loaded? ==> Damaged(t, r.t, b)
    decreases |b|
  {
    if !Returns(b[0].1) {
      BadLine(t, b);
    } else {
      var rest := b[1..];
      FirstLines(b);
      LoadReturning(t, b[0], ReadLines(rest));
      var u := TableRuns.Set(t, b[0].0, b[0].1);
      if u.Some? {
        SetKeeps(t, b[0].0, b[0].1);
        BadValue(u.value, rest);
        assert forall i :: 0 <= i < |rest| ==> rest[i] == b[i + 1];
      }
    }
  }

  /** Writing a table of such values and loading the text into a new table gives the same map
      again exactly when every stored key can be found and every value comes back by itself. */
  lemma {:induction false} RoundTripExact(t: Hash, m: Dict)
    requires Represents(t, m) && GoodKeys(AllPairs(t)) && AllSimple(AllPairs(t))
    ensures (Deserialized(NEW_TABLE, Written(AllPairs(t))).Loaded?
             && Represents(Deserialized(NEW_TABLE, Written(AllPairs(t))).t, m))
            <==> AllKeysFound(t) && AllReturn(AllPairs(t))
    ensures AllKeysFound(t) && AllReturn(AllPairs(t)) ==> Deserialized(NEW_TABLE, Written(AllPairs(t))) == Loaded(t)
  {
    var b := AllPairs(t);
    if AllReturn(b) {
      RoundTripOfReturning(t, m);
    } else {
      WrittenSplits(b);
      BadValue(NEW_TABLE, b);
      KeysListed(t, m);
      var r := Deserialized(NEW_TABLE, Written(b));
      if r.Loaded? && Represents(r.t, m) {
        forall i | 0 <= i < |b|
          ensures Lookup(BucketOf(r.t, b[i].0), b[i].0) == Some(b[i].1)
        {
          PairAnswers(t, m, i);
          assert Lookup(BucketOf(r.t, b[i].0), b[i].0) == Answer(m, b[i].0);
        }
      }
    }
  }

  // ----- the text written out

  /** The first entry of a text: its key, a colon and a space, its value, and a newline; the first
      newline of the value stands behind a backslash. */
  lemma WrittenFirst(k: Text, h: Text, r: Text, b: Bucket)
    requires '\n' !in h
    ensures Written([(k, h)] + b) == k + ": " + h + "\n" + Written(b)
    ensures Written([(k, h + "\n" + r)] + b) == k + ": " + h + "\\\n" + r + "\n" + Written(b)
  {
    ContinueNothing(h);
    ContinueAt(h, r);
    assert ([(k, h)] + b)[1..] == b == ([(k, h + "\n" + r)] + b)[1..];
    assert k + ": " + (h + "\\\n" + r) == k + ": " + h + "\\\n" + r;
  }

  /** A line that hash_deserialize takes for complete. */
  predicate Closed(l: Text) {
    '\n' !in l && (l == [] || (l[|l| - 1] != '\r' && l[|l| - 1] != '\\'))
  }

  lemma TwoPieces(h: Text, l: Text)
    requires '\n' !in h && '\n' !in l
    ensures Tokens(h + "\n" + l + "\n", LF) == [h, l, []]
  {
    TokensSkip(h, "\n" + l + "\n", LF);
    TokensSkip(l, "\n", LF);
    assert h + "\n" + l + "\n" == h + ("\n" + l + "\n") && ("\n" + l + "\n")[1..] == l + "\n";
    TokensOfOne(LF);
    assert h + [] == h && l + [] == l;
  }

  /** The values that come back, written out. */
  lemma ReturnsExact(v: Text)
    ensures Returns(v) <==>
            Closed(v) || exists h: Text, l: Text :: v == h + "\n" + l + "\n" && '\n' !in h && l != [] && Closed(l)
  {
    if TwoLines(v) {
      var q := Tokens(v, LF);
      TokensOf(v);
      TwoLinesParts(v);
      assert v == q[0] + "\n" + q[1] + "\n" && Closed(q[1]);
    }
    forall h: Text, l: Text | v == h + "\n" + l + "\n" && '\n' !in h && l != [] && Closed(l)
      ensures Returns(v)
    {
      TwoPieces(h, l);
    }
  }

  /** hash_deserialize of one entry ends as the one hash_set does. */
  function EntrySet(t: Hash, k: Text, v: Text): Loading {
    match TableRuns.Set(t, k, v)
    case None => NullFault
    case Some(t') => Loaded(t')
  }

  lemma ReturningEntry(t: Hash, k: Text, v: Text)
    requires GoodKey(k) && Returns(v)
    ensures Deserialized(t, Written([(k, v)])) == EntrySet(t, k, v)
  {
    var b := [(k, v)];
    WrittenSplits(b);
    ReturningRead(b);
    LoadSetsPairs(t, b);
    assert b[1..] == [];
  }

  /** Reading the line of one entry into any table sets its key. */
  lemma LineRead(t: Hash, k: Text, v: Text)
    requires GoodKey(k) && Closed(v)
    ensures Deserialized(t, k + ": " + v + "\n") == EntrySet(t, k, v)
  {
    ReturnsExact(v);
    ReturningEntry(t, k, v);
    LineWritten(k, v);
  }

  lemma LineWritten(k: Text, v: Text)
    requires '\n' !in v
    ensures Written([(k, v)]) == k + ": " + v + "\n"
  {
    WrittenFirst(k, v, [], []);
    WrittenAlone(k, v, k + ": " + v + "\n");
  }

  lemma WrittenAlone(k: Text, v: Text, s: Text)
    requires Written([(k, v)] + []) == s + Written([])
    ensures Written([(k, v)]) == s
  {
    assert [(k, v)] + [] == [(k, v)] && s + [] == s;
  }

  lemma TwoLinesWritten(k: Text, h: Text, l: Text)
    requires '\n' !in h
    ensures Written([(k, h + "\n" + l + "\n")]) == k + ": " + h + "\\\n" + l + "\n\n"
  {
    var r := l + "\n";
    WrittenFirst(k, h, r, []);
    assert h + "\n" + l + "\n" == h + "\n" + r;
    assert k + ": " + h + "\\\n" + r + "\n" == k + ": " + h + "\\\n" + l + "\n\n";
    WrittenAlone(k, h + "\n" + r, k + ": " + h + "\\\n" + r + "\n");
  }

  /** So does reading the two lines and the blank line of an entry. */
  lemma TwoLinesRead(t: Hash, k: Text, h: Text, l: Text)
    requires GoodKey(k) && '\n' !in h && l != [] && Closed(l)
    ensures Deserialized(t, k + ": " + h + "\\\n" + l + "\n\n") == EntrySet(t, k, h + "\n" + l + "\n")
  {
    ReturnsExact(h + "\n" + l + "\n");
    ReturningEntry(t, k, h + "\n" + l + "\n");
    TwoLinesWritten(k, h, l);
  }
}
