/** The text form of a hash table, hash_serialize and hash_deserialize, and what becomes of a
    table whose pairs are set again one after the other. */
module HashText {
  import opened Bytes
  import opened Codec
  import opened Lines
  import opened Tables
  import opened TableRuns
  import opened Chunking

  const BACKSLASH: Byte := '\\'

  /** str_subst_regex with the patterns of hash_serialize: only the first newline is replaced. */
  function ContinueFirst(v: Text): Text {
    if v == [] then []
    else if v[0] == LF then [BACKSLASH, LF] + v[1..]
    else [v[0]] + ContinueFirst(v[1..])
  }

  /** The line of one pair, without its newline. */
  function PairLine(p: Pair): Text {
    p.0 + ": " + ContinueFirst(p.1)
  }

  /** What hash_serialize appends to its destination. */
  function Written(b: Bucket): Text {
    if b == [] then [] else PairLine(b[0]) + [LF] + Written(b[1..])
  }

  /** The characters of a key in the regular expression of hash_deserialize. */
  predicate KeyChar(c: Byte) {
    IsAlnum(c) || c == '.' || c == '_' || c == '-'
  }

  /** A ": " at `p` with a key character in front of it. */
  predicate ColonAt(line: Text, p: nat) {
    0 < p && p + 1 < |line| && line[p] == ':' && line[p + 1] == ' ' && KeyChar(line[p - 1])
  }

  function FirstColon(line: Text, p: nat): (r: Option<nat>)
    ensures r.Some? ==> p <= r.value && ColonAt(line, r.value) && forall q: nat :: p <= q < r.value ==> !ColonAt(line, q)
    decreases |line| - p
  {
    if p >= |line| then None
    else if ColonAt(line, p) then Some(p)
    else FirstColon(line, p + 1)
  }

  function KeyStart(line: Text, p: nat): (s: nat)
    requires p <= |line|
    ensures s <= p && (s > 0 ==> !KeyChar(line[s - 1])) && forall i :: s <= i < p ==> KeyChar(line[i])
  {
    if p == 0 || !KeyChar(line[p - 1]) then p else KeyStart(line, p - 1)
  }

  /** The leftmost match of ([A-Za-z0-9._-]+): (.*) in a line. */
  function MatchLine(line: Text): Option<Pair> {
    match FirstColon(line, 0)
    case Some(p) => Some((line[KeyStart(line, p)..p], line[p + 2..]))
    case None => None
  }

  /** How hash_deserialize ends, and the table it leaves behind. */
  datatype Loading = Loaded(t: Hash) | ParseError(t: Hash) | NullFault

  /** The loop of hash_deserialize: `key` and `val` hold an entry whose value goes on. */
  function Load(t: Hash, lines: seq<Text>, key: Text, val: Text, multiline: bool): Loading
    decreases |lines|
  {
    if lines == [] then (if key == [] then Loaded(t) else ParseError(t))
    else if lines[0] == [] then Load(t, lines[1..], key, val, multiline)
    else
      var entry := if key == [] then MatchLine(lines[0]) else Some((key, val + lines[0]));
      match entry
      case None => ParseError(t)
      case Some((k, v)) =>
        if EndsWith(v, BACKSLASH) then Load(t, lines[1..], k, v[|v| - 1 := LF], true)
        else
          match TableRuns.Set(t, k, if multiline then v + [LF] else v)
          case None => NullFault
          case Some(t') => Load(t', lines[1..], [], [], false)
  }

  function Deserialized(t: Hash, text: Text): Loading {
    Load(t, Split(text, LF), [], [], false)
  }

  // ----- the entries that survive

  predicate GoodKey(k: Text) {
    k != [] && forall i :: 0 <= i < |k| ==> KeyChar(k[i])
  }

  predicate OneLine(v: Text) { LF !in v }

  /** Values that come back from their line. */
  predicate GoodValue(v: Text) {
    OneLine(v) && !EndsWith(v, CR) && !EndsWith(v, BACKSLASH)
  }

  lemma {:induction false} ContinueNothing(v: Text)
    requires OneLine(v)
    ensures ContinueFirst(v) == v
  {
    if v != [] {
      ContinueNothing(v[1..]);
    }
  }

  lemma LineMatches(k: Text, v: Text)
    requires GoodKey(k)
    ensures MatchLine(k + ": " + v) == Some((k, v))
  {
    var line, p := k + ": " + v, |k|;
    assert line[..p] == k && line[p] == ':' && line[p + 1] == ' ' && line[p + 2..] == v;
    assert forall i :: 0 <= i < p ==> line[i] == k[i];
    assert ColonAt(line, p);
    assert forall q: nat :: q < p ==> !ColonAt(line, q);
    ColonFound(line, 0, p);
    assert KeyStart(line, p) == 0;
  }

  lemma {:induction false} ColonFound(line: Text, from: nat, p: nat)
    requires from <= p && ColonAt(line, p) && forall q: nat :: q < p ==> !ColonAt(line, q)
    ensures FirstColon(line, from) == Some(p)
    decreases p - from
  {
    if from < p {
      ColonFound(line, from + 1, p);
    }
  }

  // ----- the regular expression

  /** The expression ([A-Za-z0-9._-]+): (.*) matches from position `i` on, with this key and value. */
  ghost predicate MatchesAt(line: Text, i: nat, k: Text, v: Text) {
    && k != []
    && (forall j {:trigger k[j]} :: 0 <= j < |k| ==>
          'A' <= k[j] <= 'Z' || 'a' <= k[j] <= 'z' || '0' <= k[j] <= '9' || k[j] == '.' || k[j] == '_' || k[j] == '-')
    && i <= |line| && line[i..] == k + ": " + v
  }

  /** The keys that stand in front of the colon of their own line. */
  lemma GoodKeyExact(k: Text, v: Text)
    ensures GoodKey(k) <==> MatchesAt(k + ": " + v, 0, k, v)
  {
    assert (k + ": " + v)[0..] == k + ": " + v;
  }

  lemma ColonOfMatch(line: Text, i: nat, k: Text, v: Text)
    requires MatchesAt(line, i, k, v)
    ensures var p := i + |k|;
            && ColonAt(line, p) && k == line[i..p] && v == line[p + 2..]
            && forall q :: i <= q < p ==> KeyChar(line[q])
  {
    var rest, n := line[i..], |k|;
    assert rest[..n] == k && rest[n] == ':' && rest[n + 1] == ' ' && rest[n + 2..] == v;
    forall q | i <= q < i + n
      ensures KeyChar(line[q])
    {
      assert line[q] == rest[q - i] == k[q - i];
    }
    assert line[i + n - 1] == k[n - 1];
  }

  lemma {:induction false} NoColon(line: Text, p: nat, q: nat)
    requires p <= q && FirstColon(line, p) == None
    ensures !ColonAt(line, q)
    decreases q - p
  {
    if p < q && p < |line| {
      NoColon(line, p + 1, q);
    }
  }

  /** The match that is found is one, and every other begins later. */
  lemma FoundMatches(line: Text, p: nat)
    requires FirstColon(line, 0) == Some(p)
    ensures MatchesAt(line, KeyStart(line, p), line[KeyStart(line, p)..p], line[p + 2..])
  {
    var s := KeyStart(line, p);
    assert s < p;
    assert line[s..] == line[s..p] + ": " + line[p + 2..];
  }

  lemma OthersLater(line: Text, p: nat, i: nat, k: Text, v: Text)
    requires FirstColon(line, 0) == Some(p) && MatchesAt(line, i, k, v)
    ensures KeyStart(line, p) <= i
    ensures i == KeyStart(line, p) ==> k == line[i..p] && v == line[p + 2..]
  {
    ColonOfMatch(line, i, k, v);
    var s, q := KeyStart(line, p), i + |k|;
    assert p <= q;
    assert line[p] == ':' && !KeyChar(':');
    assert i <= s ==> q == p;
  }

  /** hash_deserialize takes the key and the value of the leftmost match of its expression, and
      fails if there is no match. */
  lemma MatchLineExact(line: Text, k: Text, v: Text)
    ensures MatchLine(line) == Some((k, v)) <==>
            exists i: nat :: MatchesAt(line, i, k, v) && forall h: nat, k', v' :: h < i ==> !MatchesAt(line, h, k', v')
    ensures MatchLine(line) == None <==> forall i: nat, k', v' :: !MatchesAt(line, i, k', v')
  {
    match FirstColon(line, 0)
    case None =>
      forall i: nat, k', v'
        ensures !MatchesAt(line, i, k', v')
      {
        if MatchesAt(line, i, k', v') {
          ColonOfMatch(line, i, k', v');
          NoColon(line, 0, i + |k'|);
        }
      }
    case Some(p) =>
      FoundMatches(line, p);
      forall i: nat, k', v' | MatchesAt(line, i, k', v')
        ensures KeyStart(line, p) <= i && (i == KeyStart(line, p) ==> k' == line[i..p] && v' == line[p + 2..])
      {
        OthersLater(line, p, i, k', v');
      }
  }

  /** Pairs set one after the other. */
  function SetPairs(t: Hash, b: Bucket): Option<Hash>
    decreases |b|
  {
    if b == [] then Some(t)
    else
      match TableRuns.Set(t, b[0].0, b[0].1)
      case None => None
      case Some(t') => SetPairs(t', b[1..])
  }

  lemma SetFirst(t: Hash, b: Bucket, t': Hash)
    requires b != [] && TableRuns.Set(t, b[0].0, b[0].1) == Some(t')
    ensures SetPairs(t, b) == SetPairs(t', b[1..])
  {
  }

  // ----- setting the pairs of a table again

  /** No stored key is shadowed: a lookup of any stored key finds it. */
  predicate NoShadowedKey(b: Bucket) {
    forall j :: 0 <= j < |b| ==> !Shadowed(b, b[j].0)
  }

  predicate AllKeysFound(t: Hash) {
    forall s :: 0 <= s < SLOTS ==> NoShadowedKey(t.buckets[s])
  }

  /** The table when its first `s` buckets and `j` pairs of the next are there. */
  function Partial(t: Hash, s: nat, j: nat, n: int): Hash
    requires s < SLOTS && j <= |t.buckets[s]|
  {
    Table(seq(SLOTS, i requires 0 <= i < SLOTS =>
            if i < s then t.buckets[i] else if i == s then t.buckets[s][..j] else []), n)
  }

  lemma PartialStep(t: Hash, s: nat, j: nat, n: int)
    requires WellFormed(t) && s < SLOTS && j < |t.buckets[s]|
    ensures var p := t.buckets[s][j];
            && (Shadowed(t.buckets[s], p.0) <==> Shadowed(BucketOf(Partial(t, s, j, n), p.0), p.0))
            && (!Shadowed(t.buckets[s], p.0) ==>
                  TableRuns.Set(Partial(t, s, j, n), p.0, p.1) == Some(Partial(t, s, j + 1, n + 1)))
  {
    var b, p := t.buckets[s], t.buckets[s][j];
    var c := Partial(t, s, j, n);
    assert Distinct(b) && InSlot(b, s);
    assert Slot(p.0) == s && BucketOf(c, p.0) == b[..j];
    LookupAt(b, j);
    assert KeyIndex(b[..j], p.0) == j;
    if !Shadowed(b, p.0) {
      assert ValueIndex(b[..j], p.0) == j;
      assert b[..j] + [p] == b[..j + 1];
      assert c.buckets[s := b[..j + 1]] == Partial(t, s, j + 1, n + 1).buckets;
    }
  }

  /** The pairs still to set. */
  function Remaining(t: Hash, s: nat, j: nat): Bucket
    requires s < SLOTS && j <= |t.buckets[s]|
  {
    t.buckets[s][j..] + Concat(t.buckets[s + 1..])
  }

  lemma NextPair(t: Hash, s: nat, j: nat)
    requires s < SLOTS && j < |t.buckets[s]|
    ensures Remaining(t, s, j) != [] && Remaining(t, s, j)[0] == t.buckets[s][j]
    ensures Remaining(t, s, j)[1..] == Remaining(t, s, j + 1) && |Remaining(t, s, j)| == |Remaining(t, s, j + 1)| + 1
  {
  }

  lemma NextBucket(t: Hash, s: nat, n: int)
    requires s < SLOTS
    ensures var j := |t.buckets[s]|;
            if s + 1 < SLOTS then
              Remaining(t, s, j) == Remaining(t, s + 1, 0) && Partial(t, s, j, n) == Partial(t, s + 1, 0, n)
            else
              Remaining(t, s, j) == [] && Partial(t, s, j, n) == Table(t.buckets, n)
  {
    var j := |t.buckets[s]|;
    assert t.buckets[s][j..] == [] && t.buckets[s][..j] == t.buckets[s];
    if s + 1 < SLOTS {
      assert t.buckets[s + 1..][1..] == t.buckets[s + 2..];
      assert t.buckets[s + 1][0..] == t.buckets[s + 1] && t.buckets[s + 1][..0] == [];
      assert Partial(t, s, j, n).buckets == Partial(t, s + 1, 0, n).buckets;
    } else {
      assert Partial(t, s, j, n).buckets == t.buckets;
    }
  }

  /** One pair on. */
  lemma PairSet(t: Hash, s: nat, j: nat, n: int, j': nat, n': int)
    requires WellFormed(t) && s < SLOTS && j < |t.buckets[s]| && !Shadowed(t.buckets[s], t.buckets[s][j].0)
    requires j' == j + 1 && n' == n + 1
    ensures SetPairs(Partial(t, s, j, n), Remaining(t, s, j)) == SetPairs(Partial(t, s, j', n'), Remaining(t, s, j'))
    ensures |Remaining(t, s, j)| == |Remaining(t, s, j')| + 1
  {
    PartialStep(t, s, j, n);
    NextPair(t, s, j);
    SetFirst(Partial(t, s, j, n), Remaining(t, s, j), Partial(t, s, j', n'));
  }

  /** The pairs of bucket `s`. */
  lemma {:induction false} BucketSetAgain(t: Hash, s: nat, j: nat, n: int, m: int)
    requires WellFormed(t) && s < SLOTS && j <= |t.buckets[s]| && NoShadowedKey(t.buckets[s])
    requires m == n + |t.buckets[s]| - j
    ensures var l := |t.buckets[s]|;
            && SetPairs(Partial(t, s, j, n), Remaining(t, s, j)) == SetPairs(Partial(t, s, l, m), Remaining(t, s, l))
            && m + |Remaining(t, s, l)| == n + |Remaining(t, s, j)|
    decreases |t.buckets[s]| - j
  {
    if j < |t.buckets[s]| {
      var j', n' := j + 1, n + 1;
      assert !Shadowed(t.buckets[s], t.buckets[s][j].0);
      PairSet(t, s, j, n, j', n');
      BucketSetAgain(t, s, j', n', m);
    }
  }

  lemma BucketDone(t: Hash, s: nat, l: nat, n: int)
    requires s < SLOTS && l == |t.buckets[s]|
    ensures if s + 1 < SLOTS then
              && SetPairs(Partial(t, s, l, n), Remaining(t, s, l)) ==
                 SetPairs(Partial(t, s + 1, 0, n), Remaining(t, s + 1, 0))
              && |Remaining(t, s, l)| == |Remaining(t, s + 1, 0)|
            else
              SetPairs(Partial(t, s, l, n), Remaining(t, s, l)) == Some(Table(t.buckets, n)) && |Remaining(t, s, l)| == 0
  {
    NextBucket(t, s, n);
  }

  lemma {:induction false} Rebuilds(t: Hash, s: nat, n: int, total: int)
    requires WellFormed(t) && s < SLOTS && AllKeysFound(t) && total == n + |Remaining(t, s, 0)|
    ensures SetPairs(Partial(t, s, 0, n), Remaining(t, s, 0)) == Some(Table(t.buckets, total))
    decreases SLOTS - s
  {
    var l := |t.buckets[s]|;
    var m := n + l;
    BucketSetAgain(t, s, 0, n, m);
    BucketDone(t, s, l, m);
    if s + 1 < SLOTS {
      Rebuilds(t, s + 1, m, total);
    } else {
      assert m == total;
    }
  }

  lemma {:induction false} SetPairsCount(t: Hash, b: Bucket)
    ensures SetPairs(t, b).Some? ==> SetPairs(t, b).value.count <= t.count + |b|
    decreases |b|
  {
    if b != [] {
      match TableRuns.Set(t, b[0].0, b[0].1)
      case None =>
      case Some(t') => SetPairsCount(t', b[1..]);
    }
  }

  lemma PairLost(t: Hash, s: nat, j: nat, n: int)
    requires WellFormed(t) && s < SLOTS && j < |t.buckets[s]| && Shadowed(t.buckets[s], t.buckets[s][j].0)
    ensures var r := SetPairs(Partial(t, s, j, n), Remaining(t, s, j));
            r.Some? ==> r.value.count < n + |Remaining(t, s, j)|
  {
    PartialStep(t, s, j, n);
    NextPair(t, s, j);
    var p := t.buckets[s][j];
    var r := TableRuns.Set(Partial(t, s, j, n), p.0, p.1);
    if r.Some? {
      SetFirst(Partial(t, s, j, n), Remaining(t, s, j), r.value);
      SetPairsCount(r.value, Remaining(t, s, j + 1));
    }
  }

  /** The first shadowed key costs an entry. */
  lemma {:induction false} RebuildLoses(t: Hash, s: nat, j: nat, n: int, z: nat, i: nat)
    requires WellFormed(t) && s <= z < SLOTS && j <= |t.buckets[s]| && i < |t.buckets[z]| && (z == s ==> j <= i)
    requires Shadowed(t.buckets[z], t.buckets[z][i].0)
    ensures var r := SetPairs(Partial(t, s, j, n), Remaining(t, s, j));
            r.Some? ==> r.value.count < n + |Remaining(t, s, j)|
    decreases SLOTS - s, |t.buckets[s]| - j
  {
    if j < |t.buckets[s]| {
      if Shadowed(t.buckets[s], t.buckets[s][j].0) {
        PairLost(t, s, j, n);
      } else {
        var j', n' := j + 1, n + 1;
        PairSet(t, s, j, n, j', n');
        RebuildLoses(t, s, j', n', z, i);
      }
    } else {
      NextBucket(t, s, n);
      RebuildLoses(t, s + 1, 0, n, z, i);
    }
  }

  lemma FromTheStart(t: Hash)
    ensures Partial(t, 0, 0, 0) == NEW_TABLE && Remaining(t, 0, 0) == AllPairs(t)
  {
    assert t.buckets[0][0..] == t.buckets[0] && t.buckets[0][..0] == [];
  }
}
