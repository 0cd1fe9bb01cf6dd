/** list_serialize and list_deserialize of list.c. */
module Serialize {
  import opened Bytes
  import opened Codec
  import opened Lines
  import opened Lists
  import opened Shapes

  function EscapeAll(v: seq<Text>): seq<Text> {
    seq(|v|, i requires 0 <= i < |v| => Escape(v[i]))
  }

  function Serialized(v: seq<Text>): Text {
    Raw(EscapeAll(v), ' ')
  }

  /** The decoding buffer is shared, and an empty piece leaves it as the piece before did. */
  function DecodeAll(pieces: seq<Text>, buf: Text): seq<Text> {
    if pieces == [] then []
    else
      var b := if pieces[0] == [] then buf else Unescape(CString(pieces[0]));
      [b] + DecodeAll(pieces[1..], b)
  }

  function Deserialized(text: Text): seq<Text> {
    DecodeAll(Split(text, ' '), [])
  }

  /** list_serialize. */
  method ListSerialize(src: List) returns (dest: Text)
    requires src.Chain()
    ensures dest == Serialized(src.View().values)
  {
    dest := [];
    ghost var e := EscapeAll(src.View().values);
    var cur, i := src.head, 0;
    while cur != null
      invariant 0 <= i <= |src.spine| && cur == if i < |src.spine| then src.spine[i] else null
      invariant dest == Raw(e[..i], ' ')
      decreases |src.spine| - i
    {
      var buf := StrEscape(cur.value);
      RawNext(e, i, ' ');
      assert e[i] == Escape(cur.value);
      if i != 0 {
        dest := Putc(dest, ' ');
      }
      i := i + 1;
      dest := dest + buf;
      cur := cur.next;
    }
    assert e[..i] == e;
  }

  /** One piece of list_deserialize: str_unescape into the shared buffer, then list_push. */
  method DecodePiece(dest: List, piece: Text, buf: Text,
        ghost pieces: seq<Text>, ghost i: nat, ghost done: seq<Text>)
    returns (b: Text)
    requires dest.Chain() && dest.View() == ShapeOf(done)
    requires i < |pieces| && piece == pieces[i] && DecodeAll(pieces, []) == done + DecodeAll(pieces[i..], buf)
    modifies dest, dest.tail
    ensures DecodeAll(pieces, []) == (done + [b]) + DecodeAll(pieces[i + 1..], b)
    ensures dest.Chain() && dest.View() == ShapeOf(done + [b])
    ensures fresh(dest.tail) && dest.spine == old(dest.spine) + [dest.tail]
  {
    DecodeStep(done, pieces, i, buf);
    b := StrUnescape(buf, piece);
    PushedShapeOf(done, b);
    dest.Push(b);
  }

  /** The loop of list_deserialize. */
  method PushDecoded(dest: List, tok: List)
    requires dest.Chain() && dest.spine == [] && tok.Chain() && tok != dest
    modifies dest
    ensures dest.Chain() && dest.View() == ShapeOf(DecodeAll(old(tok.View().values), []))
  {
    ghost var nodes, pieces := tok.spine, tok.View().values;
    tok.ViewShows();
    var cur, buf: Text := tok.head, [];
    ghost var i, done: seq<Text> := 0, [];
    dest.ViewIs(ShapeOf(done));
    DecodeEnds(pieces);
    while cur != null
      invariant unchanged(nodes) && 0 <= i <= |nodes| && cur == if i < |nodes| then nodes[i] else null
      invariant dest.Chain() && dest.View() == ShapeOf(done) && (dest.tail == null || fresh(dest.tail))
      invariant DecodeAll(pieces, []) == done + DecodeAll(pieces[i..], buf)
      decreases |nodes| - i
    {
      buf := DecodePiece(dest, cur.value, buf, pieces, i, done);
      done := done + [buf];
      cur := cur.next;
      i := i + 1;
    }
    assert done + [] == done;
  }

  lemma DecodeEnds(pieces: seq<Text>)
    ensures DecodeAll(pieces, []) == [] + DecodeAll(pieces[0..], []) && pieces[|pieces|..] == []
  {
    assert pieces[0..] == pieces;
  }

  /** list_deserialize. */
  method ListDeserialize(dest: List, src: Text)
    requires dest.Chain()
    modifies dest, dest.spine
    ensures dest.Chain() && dest.View() == ShapeOf(Deserialized(src))
  {
    dest.Truncate();
    var tok := new List();
    StrSplit(tok, src, ' ');
    PushDecoded(dest, tok);
  }

  lemma DecodeStep(done: seq<Text>, pieces: seq<Text>, i: nat, buf: Text)
    requires i < |pieces|
    ensures var b := if pieces[i] == [] then buf else Unescape(CString(pieces[i]));
            done + DecodeAll(pieces[i..], buf) == (done + [b]) + DecodeAll(pieces[i + 1..], b)
  {
    assert pieces[i..][1..] == pieces[i + 1..];
  }

  predicate EmptiesFirst(v: seq<Text>) {
    forall i, j :: 0 <= i < j < |v| && v[j] == [] ==> v[i] == []
  }

  /** The lists that come back from list_serialize and list_deserialize. */
  predicate Reserializes(v: seq<Text>) {
    v != [[]] && EmptiesFirst(v)
  }

  /** What the shared buffer holds after the encoding of a value. */
  lemma DecodeEscaped(s: Text, buf: Text)
    requires NUL !in s
    ensures (if Escape(s) == [] then buf else Unescape(CString(Escape(s)))) == if s == [] then buf else s
  {
    EscapeCanonical(s);
    UnescapeEscape(s);
    assert !Kept(NUL) && NUL != '%';
  }

  lemma DecodeFirst(e: seq<Text>, s: Text, buf: Text)
    requires e != [] && e[0] == Escape(s) && NUL !in s
    ensures var b := if s == [] then buf else s; DecodeAll(e, buf) == [b] + DecodeAll(e[1..], b)
  {
    DecodeEscaped(s, buf);
  }

  lemma {:induction false} DecodeExact(v: seq<Text>, buf: Text)
    requires forall s :: s in v ==> NUL !in s
    ensures DecodeAll(EscapeAll(v), buf) == v <==> (buf == [] || [] !in v) && EmptiesFirst(v)
  {
    if v != [] {
      var e := EscapeAll(v);
      assert e[1..] == EscapeAll(v[1..]);
      DecodeFirst(e, v[0], buf);
      var b := if v[0] == [] then buf else v[0];
      DecodeExact(v[1..], b);
      assert v == [v[0]] + v[1..];
      assert EmptiesFirst(v) <==> EmptiesFirst(v[1..]) && (v[0] != [] ==> [] !in v[1..]);
    }
  }

  lemma EscapedLinesSplit(v: seq<Text>)
    requires forall s :: s in v ==> NUL !in s
    ensures Split(Serialized(v), ' ') == if v == [[]] then [] else EscapeAll(v)
  {
    var e := EscapeAll(v);
    if v != [] {
      forall i | 0 <= i < |v|
        ensures ' ' !in e[i] && CR !in e[i] && LF !in e[i] && (e[i] == [] <==> v[i] == [])
      {
        EscapeCanonical(v[i]);
      }
      RawChars(e, ' ', CR);
      RawChars(e, ' ', LF);
      assert Raw(e, ' ') == Join(e, ' ');
      if |v| > 1 || v[0] != [] {
        assert Raw(e, ' ') != [];
        SplitJoinExact(e, ' ');
      }
    }
  }

  lemma {:induction false} RawChars(v: seq<Text>, d: Byte, c: Byte)
    requires c != d && forall i :: 0 <= i < |v| ==> c !in v[i]
    ensures c !in Raw(v, d)
  {
    if |v| > 1 {
      RawChars(v[1..], d, c);
    }
  }

  /** Reading back what was written gives the list again exactly when its empty values, if
      any, all come first and it is not a single empty value. */
  lemma DeserializeSerializeExact(v: seq<Text>)
    requires forall s :: s in v ==> NUL !in s
    ensures Deserialized(Serialized(v)) == v <==> Reserializes(v)
  {
    EscapedLinesSplit(v);
    DecodeExact(v, []);
  }

  /** In particular every list of non-empty values comes back. */
  lemma NonEmptyValuesComeBack(v: seq<Text>)
    requires forall s :: s in v ==> NUL !in s && s != []
    ensures Deserialized(Serialized(v)) == v
  {
    DeserializeSerializeExact(v);
    assert forall i :: 0 <= i < |v| ==> v[i] in v;
  }

  /** An empty value behind another comes back as a copy of it. */
  lemma EmptyValueRepeats(a: Text)
    requires NUL !in a && a != []
    ensures Deserialized(Serialized([a, []])) == [a, a]
  {
    var v: seq<Text> := [a, []];
    EscapedLinesSplit(v);
    var e := EscapeAll(v);
    var rest := e[1..];
    DecodeFirst(e, a, []);
    DecodeFirst(rest, [], a);
    assert rest[1..] == [] && [a] + ([a] + []) == [a, a];
  }
}
