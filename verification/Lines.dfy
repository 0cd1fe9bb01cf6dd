/** Line endings, str_split and str_join of string.c and list.c. */
module Lines {
  import opened Bytes
  import opened Codec
  import opened Lists
  import opened Shapes

  /** str_chomp: one LF, then one CR, from the end. */
  function Chomp(s: Text): Text {
    var t := if s != [] && s[|s| - 1] == LF then s[..|s| - 1] else s;
    if t != [] && t[|t| - 1] == CR then t[..|t| - 1] else t
  }

  /** The pieces between delimiters: one more piece than there are delimiters. */
  function Tokens(s: Text, d: Byte): (r: seq<Text>)
    ensures r != []
  {
    if s == [] then [[]]
    else
      var rest := Tokens(s[1..], d);
      if s[0] == d then [[]] + rest else [[s[0]] + rest[0]] + rest[1..]
  }

  function ChompAll(v: seq<Text>): seq<Text> {
    seq(|v|, i requires 0 <= i < |v| => Chomp(v[i]))
  }

  /** The list str_split makes of a string. */
  function Split(s: Text, d: Byte): seq<Text> {
    if s == [] then []
    else
      Trimmed(Tokens(Chomp(s), d), d)
  }

  function Raw(v: seq<Text>, d: Byte): Text {
    if v == [] then []
    else if |v| == 1 then v[0]
    else v[0] + [d] + Raw(v[1..], d)
  }

  function Flatten(v: seq<Text>): Text {
    if v == [] then [] else v[0] + Flatten(v[1..])
  }

  /** The string str_join makes of a list: a newline delimiter also ends the text, and a NUL
      delimiter is no character to str_putc. */
  function Join(v: seq<Text>, d: Byte): Text {
    if d == NUL then Flatten(v) else Raw(v, d) + if d == LF then [LF] else []
  }

  /** strsep(3) with one delimiter: the text before the first delimiter, and the text after it. */
  method Strsep(s: Text, d: Byte) returns (tok: Text, rest: Option<Text>)
    ensures Tokens(s, d) == [tok] + if rest.Some? then Tokens(rest.value, d) else []
    ensures rest.Some? ==> |rest.value| < |s|
  {
    var i := 0;
    while i < |s| && s[i] != d
      invariant 0 <= i <= |s| && d !in s[..i]
    {
      i := i + 1;
    }
    TokensSkip(s[..i], s[i..], d);
    assert s[..i] + s[i..] == s;
    tok := s[..i];
    assert s[..i] + [] == tok;
    rest := if i < |s| then Some(s[i + 1..]) else None;
    if i < |s| {
      assert s[i..][1..] == s[i + 1..];
    }
  }

  /** What str_split keeps of its pieces: a newline delimiter also costs them a final CR. */
  function Trimmed(v: seq<Text>, d: Byte): seq<Text> {
    if d == LF then ChompAll(v) else v
  }

  lemma Regroup(done: seq<Text>, tok: Text, rest: seq<Text>)
    ensures done + ([tok] + rest) == (done + [tok]) + rest
  {
  }

  /** One piece of str_split: list_cat, then str_chomp of the new last value. */
  method AddPiece(dest: List, tok: Text, d: Byte, ghost done: seq<Text>)
    requires dest.Chain() && dest.View() == ShapeOf(Trimmed(done, d))
    modifies dest, dest.tail
    ensures dest.Chain() && dest.View() == ShapeOf(Trimmed(done + [tok], d))
    ensures fresh(dest.tail) && dest.spine == old(dest.spine) + [dest.tail]
  {
    var piece := if d == LF then Chomp(tok) else tok;
    dest.Push(piece);
    PushedShapeOf(Trimmed(done, d), piece);
    assert Trimmed(done + [tok], d) == Trimmed(done, d) + [piece];
  }

  /** The strsep loop of str_split. */
  method PushPieces(dest: List, s: Text, d: Byte)
    requires dest.Chain() && dest.spine == []
    modifies dest
    ensures dest.Chain() && dest.View() == ShapeOf(Trimmed(Tokens(s, d), d))
    ensures forall i :: 0 <= i < |dest.spine| ==> fresh(dest.spine[i])
  {
    var cp := Some(s);
    ghost var done: seq<Text> := [];
    assert Trimmed(done, d) == [] && dest.View() == ShapeOf([]);
    while cp.Some?
      invariant dest.Chain() && dest.View() == ShapeOf(Trimmed(done, d))
      invariant forall i :: 0 <= i < |dest.spine| ==> fresh(dest.spine[i])
      invariant Tokens(s, d) == done + if cp.Some? then Tokens(cp.value, d) else []
      decreases if cp.Some? then |cp.value| + 1 else 0
    {
      var tok, rest := Strsep(cp.value, d);
      Regroup(done, tok, if rest.Some? then Tokens(rest.value, d) else []);
      AddPiece(dest, tok, d, done);
      cp, done := rest, done + [tok];
    }
    assert done + [] == done;
  }

  /** str_split, into a list that keeps its contents when the string is empty. */
  method StrSplit(dest: List, src: Text, d: Byte)
    requires dest.Chain()
    modifies dest, dest.spine
    ensures dest.Chain()
    ensures src == [] ==> dest.spine == old(dest.spine) && dest.View() == old(dest.View())
    ensures src != [] ==> dest.View() == ShapeOf(Split(src, d)) && forall i :: 0 <= i < |dest.spine| ==> fresh(dest.spine[i])
  {
    if src == [] {
      return;
    }
    dest.Truncate();
    PushPieces(dest, Chomp(src), d);
  }

  /** What str_join has written before value `i`. */
  ghost function Begun(v: seq<Text>, i: nat, d: Byte): Text
    requires i <= |v|
  {
    if d == NUL then Flatten(v[..i]) else Raw(v[..i], d) + if 0 < i < |v| then [d] else []
  }

  lemma BegunNext(v: seq<Text>, i: nat, d: Byte)
    requires i < |v|
    ensures Begun(v, i + 1, d) == if i + 1 < |v| then Putc(Begun(v, i, d) + v[i], d) else Begun(v, i, d) + v[i]
  {
    RawNext(v, i, d);
    FlattenNext(v, i);
  }

  lemma BegunAll(v: seq<Text>, d: Byte)
    ensures Begun(v, 0, d) == [] && Join(v, d) == if d == LF then Putc(Begun(v, |v|, d), d) else Begun(v, |v|, d)
  {
    assert v[..|v|] == v;
  }

  /** str_join. */
  method StrJoin(src: List, d: Byte) returns (dest: Text)
    requires src.Chain()
    ensures dest == Join(src.View().values, d)
  {
    dest := [];
    var cur, i := src.head, 0;
    ghost var v := src.View().values;
    BegunAll(v, d);
    while cur != null
      invariant 0 <= i <= |src.spine| && cur == if i < |src.spine| then src.spine[i] else null
      invariant dest == Begun(v, i, d)
      decreases |src.spine| - i
    {
      BegunNext(v, i, d);
      dest := dest + cur.value;
      i := i + 1;
      if i < src.count {
        dest := Putc(dest, d);
      }
      cur := cur.next;
    }
    if d == LF {
      dest := Putc(dest, d);
    }
  }

  lemma {:induction false} RawSnoc(v: seq<Text>, x: Text, d: Byte)
    ensures Raw(v + [x], d) == if v == [] then x else Raw(v, d) + [d] + x
  {
    if v != [] {
      assert (v + [x])[1..] == v[1..] + [x];
      RawSnoc(v[1..], x, d);
    }
  }

  lemma {:induction false} RawConcat(u: seq<Text>, v: seq<Text>, d: Byte)
    requires u != [] && v != []
    ensures Raw(u + v, d) == Raw(u, d) + [d] + Raw(v, d)
  {
    assert (u + v)[1..] == u[1..] + v;
    if |u| > 1 {
      RawConcat(u[1..], v, d);
    } else {
      assert u[1..] + v == v;
    }
  }

  lemma {:induction false} FlattenNext(v: seq<Text>, i: nat)
    requires i < |v|
    ensures Flatten(v[..i + 1]) == Flatten(v[..i]) + v[i]
  {
    if i > 0 {
      assert v[..i + 1][1..] == v[1..][..i] && v[..i][1..] == v[1..][..i - 1];
      FlattenNext(v[1..], i - 1);
    } else {
      assert v[..1][1..] == [];
    }
  }

  lemma RawNext(v: seq<Text>, i: nat, d: Byte)
    requires i < |v|
    ensures Raw(v[..i + 1], d) == if i == 0 then v[0] else Raw(v[..i], d) + [d] + v[i]
  {
    RawSnoc(v[..i], v[i], d);
    assert v[..i] + [v[i]] == v[..i + 1];
  }

  lemma {:induction false} TokensSkip(a: Text, b: Text, d: Byte)
    requires d !in a
    ensures Tokens(a + b, d) == [a + Tokens(b, d)[0]] + Tokens(b, d)[1..]
  {
    if a == [] {
      assert a + b == b && a + Tokens(b, d)[0] == Tokens(b, d)[0];
    } else {
      assert (a + b)[1..] == a[1..] + b;
      TokensSkip(a[1..], b, d);
      var t := Tokens(b, d)[0];
      assert [a[0]] + (a[1..] + t) == a + t;
    }
  }

  /** A delimiter separates the pieces on its two sides. */
  lemma {:induction false} TokensSplit(a: Text, b: Text, d: Byte)
    ensures Tokens(a + [d] + b, d) == Tokens(a, d) + Tokens(b, d)
  {
    if a == [] {
      assert (a + [d] + b)[1..] == b;
    } else {
      assert (a + [d] + b)[1..] == a[1..] + [d] + b;
      TokensSplit(a[1..], b, d);
      PiecesBefore(a[0] == d, [a[0]], Tokens(a[1..], d), Tokens(b, d));
    }
  }

  lemma PiecesBefore(cut: bool, c: Text, v: seq<Text>, w: seq<Text>)
    requires v != []
    ensures if cut then [[]] + (v + w) == ([[]] + v) + w
            else [c + (v + w)[0]] + (v + w)[1..] == ([c + v[0]] + v[1..]) + w
  {
    assert (v + w)[1..] == v[1..] + w;
  }

  predicate NoDelimiter(v: seq<Text>, d: Byte) {
    forall i :: 0 <= i < |v| ==> d !in v[i]
  }

  /** Joining the pieces gives the text back, and no piece holds a delimiter. */
  lemma {:induction false} TokensRaw(s: Text, d: Byte)
    ensures Raw(Tokens(s, d), d) == s && NoDelimiter(Tokens(s, d), d)
  {
    if s != [] {
      TokensRaw(s[1..], d);
      var rest := Tokens(s[1..], d);
      var v := Tokens(s, d);
      if s[0] == d {
        assert v[1..] == rest;
      } else if |rest| > 1 {
        assert v[1..] == rest[1..];
      }
    }
  }

  /** Splitting joined pieces gives the pieces back. */
  lemma {:induction false} RawTokens(v: seq<Text>, d: Byte)
    requires v != [] && NoDelimiter(v, d)
    ensures Tokens(Raw(v, d), d) == v
  {
    if |v| == 1 {
      TokensSkip(v[0], [], d);
      assert v[0] + [] == v[0];
    } else {
      RawTokens(v[1..], d);
      TokensSplit(v[0], Raw(v[1..], d), d);
      TokensSkip(v[0], [], d);
      assert v[0] + [] == v[0];
    }
  }

  predicate EndsWith(s: Text, c: Byte) { s != [] && s[|s| - 1] == c }

  /** The lists that come back from str_join and str_split. */
  predicate Rejoins(v: seq<Text>, d: Byte) {
    if v == [] then d != LF
    else if d == NUL then |v| == 1 && v[0] != [] && NUL !in v[0] && !EndsWith(v[0], CR) && !EndsWith(v[0], LF)
    else
      && NoDelimiter(v, d)
      && if d == LF then forall i :: 0 <= i < |v| ==> !EndsWith(v[i], CR)
         else Raw(v, d) != [] && !EndsWith(Raw(v, d), CR) && !EndsWith(Raw(v, d), LF)
  }

  /** Splitting undoes joining exactly on those lists. */
  lemma SplitJoinExact(v: seq<Text>, d: Byte)
    ensures Split(Join(v, d), d) == v <==> Rejoins(v, d)
  {
    if d == NUL {
      SplitJoinNul(v);
    } else if v == [] {
      assert Split([LF], LF) == Trimmed([[]], LF);
    } else if d == LF {
      if Rejoins(v, LF) {
        RejoinedLines(v);
      }
      SplitLinesRejoin(v);
    } else {
      assert Join(v, d) == Raw(v, d);
      TokensRaw(Chomp(Raw(v, d)), d);
      if NoDelimiter(v, d) {
        RawTokens(v, d);
      }
    }
  }

  lemma {:induction false} FlattenChars(v: seq<Text>, c: Byte)
    requires NoDelimiter(v, c)
    ensures c !in Flatten(v)
  {
    if v != [] {
      FlattenChars(v[1..], c);
    }
  }

  /** Without a delimiter there is one piece. */
  lemma OnePiece(s: Text, d: Byte)
    requires d !in s
    ensures Tokens(s, d) == [s]
  {
    TokensSkip(s, [], d);
    assert s + [] == s;
  }

  lemma SplitJoinNul(v: seq<Text>)
    ensures Split(Join(v, NUL), NUL) == v <==> Rejoins(v, NUL)
  {
    var t := Flatten(v);
    TokensRaw(Chomp(t), NUL);
    if NoDelimiter(v, NUL) {
      FlattenChars(v, NUL);
      OnePiece(Chomp(t), NUL);
    }
    if |v| == 1 {
      assert v[1..] == [] && t == v[0];
    }
  }

  lemma ChompEnded(s: Text)
    requires !EndsWith(s, CR)
    ensures Chomp(s + [LF]) == s
  {
    assert (s + [LF])[..|s|] == s;
  }

  lemma {:induction false} RawEnd(v: seq<Text>)
    requires v != [] && forall i :: 0 <= i < |v| ==> !EndsWith(v[i], CR)
    ensures !EndsWith(Raw(v, LF), CR)
  {
    if |v| > 1 {
      var w := v[1..];
      assert forall i :: 0 <= i < |w| ==> w[i] == v[i + 1];
      RawEnd(w);
    }
  }

  lemma RejoinedLines(v: seq<Text>)
    requires v != [] && Rejoins(v, LF)
    ensures Split(Join(v, LF), LF) == v
  {
    RawEnd(v);
    ChompEnded(Raw(v, LF));
    RawTokens(v, LF);
    assert ChompAll(v) == v;
  }

  /** The list with the last character of its last value cut off. */
  function CutLast(v: seq<Text>): seq<Text>
    requires v != [] && v[|v| - 1] != []
  {
    var n := |v| - 1;
    v[n := v[n][..|v[n]| - 1]]
  }

  lemma RawCutLast(v: seq<Text>)
    requires v != [] && EndsWith(Raw(v, LF), CR)
    ensures v[|v| - 1] != []
    ensures Raw(CutLast(v), LF) == Raw(v, LF)[..|Raw(v, LF)| - 1]
  {
    var n := |v| - 1;
    assert v == v[..n] + [v[n]];
    RawSnoc(v[..n], v[n], LF);
    var cut := v[n][..|v[n]| - 1];
    assert CutLast(v) == v[..n] + [cut];
    RawSnoc(v[..n], cut, LF);
  }

  lemma ChompCRLF(t: Text)
    requires EndsWith(t, CR)
    ensures Chomp(t + [LF]) == t[..|t| - 1]
  {
    assert (t + [LF])[..|t|] == t;
  }

  /** A final CR of the last line does not survive. */
  lemma FinalCRIsLost(v: seq<Text>)
    requires v != [] && NoDelimiter(v, LF) && EndsWith(Raw(v, LF), CR)
    ensures Split(Join(v, LF), LF) != v
  {
    RawCutLast(v);
    var w := CutLast(v);
    ChompCRLF(Raw(v, LF));
    RawTokens(w, LF);
    assert Split(Join(v, LF), LF) == ChompAll(w);
    assert |Chomp(w[|v| - 1])| < |v[|v| - 1]|;
  }

  lemma SplitLinesRejoin(v: seq<Text>)
    requires v != []
    ensures Split(Join(v, LF), LF) == v ==> Rejoins(v, LF)
  {
    var t := Join(v, LF);
    if Split(t, LF) == v {
      TokensRaw(Chomp(t), LF);
      assert v == ChompAll(Tokens(Chomp(t), LF));
      assert NoDelimiter(v, LF);
      if EndsWith(Raw(v, LF), CR) {
        FinalCRIsLost(v);
      } else {
        ChompEnded(Raw(v, LF));
        RawTokens(v, LF);
      }
    }
  }
}
