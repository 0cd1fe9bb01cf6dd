/** One bucket of hash.c on the heap: a list whose nodes are alternately keys and values. */
module BucketLists {
  import opened Bytes
  import opened Lists
  import opened Shapes
  import opened Tables

  /** The values of the nodes, keys and values in turn. */
  function Flat(b: Bucket): (r: seq<Text>)
    ensures |r| == 2 * |b|
  {
    if b == [] then [] else [b[0].0, b[0].1] + Flat(b[1..])
  }

  lemma {:induction false} FlatAt(b: Bucket, j: nat)
    requires j < |b|
    ensures Flat(b)[2 * j] == b[j].0 && Flat(b)[2 * j + 1] == b[j].1
  {
    if j > 0 {
      FlatAt(b[1..], j - 1);
    }
  }

  /** The node a hit stands for. */
  function NodeOf(hit: Hit): nat
    requires hit != NoHit
  {
    match hit
    case AtKey(j) => 2 * j
    case AtValue(j) => 2 * j + 1
  }

  /** Going through the nodes one by one finds the hit of Search. */
  lemma FirstNode(b: Bucket, k: Text, i: nat)
    requires i <= |Flat(b)| && forall n :: 0 <= n < i ==> Flat(b)[n] != k
    requires i < |Flat(b)| ==> Flat(b)[i] == k
    ensures i == |Flat(b)| ==> Search(b, k) == NoHit
    ensures i < |Flat(b)| ==> Search(b, k) != NoHit && NodeOf(Search(b, k)) == i
  {
    var a, v := KeyIndex(b, k), ValueIndex(b, k);
    if a < |b| {
      FlatAt(b, a);
    }
    if v < |b| {
      FlatAt(b, v);
    }
    if i < |Flat(b)| {
      FlatAt(b, i / 2);
    }
  }

  lemma {:induction false} FlatConcat(b: Bucket, c: Bucket)
    ensures Flat(b + c) == Flat(b) + Flat(c)
  {
    if b == [] {
      assert b + c == c;
    } else {
      assert (b + c)[1..] == b[1..] + c;
      FlatConcat(b[1..], c);
    }
  }

  lemma FlatPair(p: Pair)
    ensures Flat([p]) == [p.0, p.1]
  {
    assert [p][1..] == [];
  }

  lemma SplitAround(b: Bucket, j: nat)
    requires j < |b|
    ensures b == b[..j] + ([b[j]] + b[j + 1..])
  {
  }

  /** Three parts of a bucket around pair `j`. */
  lemma FlatAround(b: Bucket, j: nat)
    requires j < |b|
    ensures Flat(b) == Flat(b[..j]) + ([b[j].0, b[j].1] + Flat(b[j + 1..]))
  {
    SplitAround(b, j);
    FlatConcat(b[..j], [b[j]] + b[j + 1..]);
    FlatConcat([b[j]], b[j + 1..]);
    FlatPair(b[j]);
  }

  /** Writing the node at `n`, the value of pair `j` or its key. */
  lemma FlatReplace(b: Bucket, j: nat, p: Pair, n: nat)
    requires j < |b| && n == 2 * j
    ensures n + 1 < |Flat(b)|
    ensures p.1 == b[j].1 ==> Flat(b[j := p]) == Flat(b)[n := p.0]
    ensures p.0 == b[j].0 ==> Flat(b[j := p]) == Flat(b)[n + 1 := p.1]
  {
    var c := b[j := p];
    FlatAround(b, j);
    FlatAround(c, j);
    assert c[..j] == b[..j] && c[j + 1..] == b[j + 1..];
    PutIn(Flat(b[..j]), b[j].0, b[j].1, Flat(b[j + 1..]), p.0, p.1);
  }

  lemma PutIn<T>(x: seq<T>, p: T, q: T, y: seq<T>, p': T, q': T)
    ensures (x + ([p, q] + y))[|x| := p'] == x + ([p', q] + y)
    ensures (x + ([p, q] + y))[|x| + 1 := q'] == x + ([p, q'] + y)
  {
  }

  /** Writing the node at `n`, where there is one. */
  ghost predicate WrittenAt(flat: seq<Text>, n: nat, v: Text, r: Outcome<Bucket>) {
    match r
    case Done(b') => n < |flat| && Flat(b') == flat[n := v]
    case Fault => n == |flat|
    case Missing => false
  }

  /** Writing the node after a hit. */
  lemma FlatSet(b: Bucket, hit: Hit, v: Text, n: nat)
    requires hit != NoHit && hit.j < |b| && n == NodeOf(hit)
    ensures WrittenAt(Flat(b), n + 1, v, SetHit(b, hit, v))
  {
    if hit.AtKey? {
      WriteValue(b, hit.j, v, n);
    } else if hit.j + 1 < |b| {
      WriteKey(b, hit.j + 1, v, n + 1);
    }
  }

  lemma WriteValue(b: Bucket, j: nat, v: Text, n: nat)
    requires j < |b| && n == 2 * j
    ensures WrittenAt(Flat(b), n + 1, v, Done(b[j := (b[j].0, v)]))
  {
    FlatReplace(b, j, (b[j].0, v), n);
  }

  lemma WriteKey(b: Bucket, j: nat, v: Text, n: nat)
    requires j < |b| && n == 2 * j
    ensures WrittenAt(Flat(b), n, v, Done(b[j := (v, b[j].1)]))
  {
    FlatReplace(b, j, (v, b[j].1), n);
  }

  lemma CutTwo<T>(x: seq<T>, p: T, q: T, y: seq<T>)
    ensures var s := x + ([p, q] + y); s[..|x|] + s[|x| + 2..] == x + y
  {
  }

  /** Taking out the node at `n` and the one after it, where there is one. */
  ghost predicate CutAt(flat: seq<Text>, n: nat, r: Outcome<Bucket>) {
    match r
    case Done(b') => n + 1 < |flat| && Flat(b') == flat[..n] + flat[n + 2..]
    case Fault => n + 1 == |flat|
    case Missing => false
  }

  /** Taking out a hit and the node after it. */
  lemma FlatDelete(b: Bucket, hit: Hit, n: nat)
    requires hit != NoHit && hit.j < |b| && n == NodeOf(hit)
    ensures CutAt(Flat(b), n, DeleteHit(b, hit))
  {
    if hit.AtKey? {
      CutKey(b, hit.j, n);
    } else if hit.j + 1 < |b| {
      CutValue(b, hit.j, n);
    }
  }

  lemma CutKey(b: Bucket, j: nat, n: nat)
    requires j < |b| && n == 2 * j
    ensures CutAt(Flat(b), n, Done(b[..j] + b[j + 1..]))
  {
    FlatCutPair(b, j, n);
  }

  lemma CutValue(b: Bucket, j: nat, n: nat)
    requires j + 1 < |b| && n == 2 * j + 1
    ensures CutAt(Flat(b), n, Done(b[..j] + [(b[j].0, b[j + 1].1)] + b[j + 2..]))
  {
    FlatCrossing(b, j, n);
  }

  lemma FlatCutPair(b: Bucket, j: nat, n: nat)
    requires j < |b| && n == 2 * j
    ensures n + 2 <= |Flat(b)| && Flat(b[..j] + b[j + 1..]) == Flat(b)[..n] + Flat(b)[n + 2..]
  {
    var x, y := Flat(b[..j]), Flat(b[j + 1..]);
    FlatAround(b, j);
    FlatConcat(b[..j], b[j + 1..]);
    CutTwo(x, b[j].0, b[j].1, y);
    assert |x| == n;
  }

  lemma CutMiddle<T>(x: seq<T>, k: T, p: T, q: T, v: T, y: seq<T>)
    ensures var s := x + ([k, p] + ([q, v] + y)); s[..|x| + 1] + s[|x| + 3..] == x + ([k, v] + y)
  {
  }

  lemma FlatFront(z: Bucket)
    requires z != []
    ensures Flat(z) == [z[0].0, z[0].1] + Flat(z[1..])
  {
  }

  /** Without the value of pair `j` and the key of the next, the two pairs become one. */
  lemma FlatCrossing(b: Bucket, j: nat, n: nat)
    requires j + 1 < |b| && n == 2 * j + 1
    ensures n + 2 <= |Flat(b)|
    ensures Flat(b[..j] + [(b[j].0, b[j + 1].1)] + b[j + 2..]) == Flat(b)[..n] + Flat(b)[n + 2..]
  {
    var p, z, x := (b[j].0, b[j + 1].1), b[j + 1..], Flat(b[..j]);
    var c := b[..j] + [p] + b[j + 2..];
    assert z[0] == b[j + 1] && z[1..] == b[j + 2..];
    assert c[j] == p && c[..j] == b[..j] && c[j + 1..] == b[j + 2..];
    FlatAround(b, j);
    FlatFront(z);
    FlatAround(c, j);
    CutMiddle(x, b[j].0, b[j].1, b[j + 1].0, b[j + 1].1, Flat(b[j + 2..]));
    assert |x| + 1 == n;
  }

  /** The list holds these pairs, in good order. */
  ghost predicate Holds(l: List, b: Bucket)
    reads l, l.spine
  {
    l.Chain() && l.View() == ShapeOf(Flat(b))
  }

  /** The search loop of hash_entry_search and hash_set. */
  method SearchNodes(l: List, key: Text, ghost b: Bucket) returns (ent: Entry?, ghost i: nat)
    requires Holds(l, b)
    ensures i <= |l.spine| == |Flat(b)| && ent == if i < |l.spine| then l.spine[i] else null
    ensures (ent == null <==> Search(b, key) == NoHit) && (ent != null ==> ent.value == key)
    ensures i == |l.spine| ==> Search(b, key) == NoHit
    ensures i < |l.spine| ==> Search(b, key) != NoHit && NodeOf(Search(b, key)) == i
  {
    ent, i := l.head, 0;
    ghost var flat := Flat(b);
    assert l.View().values == flat;
    while ent != null && ent.value != key
      invariant 0 <= i <= |l.spine| && ent == if i < |l.spine| then l.spine[i] else null
      invariant forall n :: 0 <= n < i ==> flat[n] != key
      decreases |l.spine| - i
    {
      assert l.View().values[i] == ent.value;
      ent := ent.next;
      i := i + 1;
    }
    if i < |l.spine| {
      assert l.View().values[i] == ent.value;
    }
    FirstNode(b, key, i);
  }

  /** hash_get on its bucket. */
  method GetIn(l: List, key: Text, ghost b: Bucket) returns (r: Outcome<Text>)
    requires Holds(l, b)
    ensures r == Following(b, Search(b, key))
  {
    var ent, i := SearchNodes(l, key, b);
    if ent == null {
      return Missing;
    }
    if ent.next == null {
      FlatSet(b, Search(b, key), key, i);
      return Fault;
    }
    r := Done(ent.next.value);
    assert l.View().values[i + 1] == ent.next.value;
    FlatSet(b, Search(b, key), key, i);
    match Search(b, key)
    case AtKey(j) => FlatAt(b, j);
    case AtValue(j) => FlatAt(b, j + 1);
  }

  /** hash_set on its bucket; `added` says whether a pair was appended. */
  method SetIn(l: List, key: Text, value: Text, ghost b: Bucket) returns (r: Outcome<()>, added: bool)
    requires Holds(l, b)
    modifies l, l.spine
    ensures match BucketSet(b, key, value)
            case Done(b') => r == Done(()) && Holds(l, b')
            case Fault => r == Fault && Holds(l, b)
            case Missing => false
    ensures added == (Search(b, key) == NoHit)
    ensures forall i :: 0 <= i < |l.spine| ==> l.spine[i] in old(l.spine) || fresh(l.spine[i])
  {
    var ent, i := SearchNodes(l, key, b);
    if ent != null {
      FlatSet(b, Search(b, key), value, i);
      if ent.next == null {
        return Fault, false;
      }
      ent.next.value := value;
      l.Revalued(Flat(b)[i + 1 := value]);
      return Done(()), false;
    }
    PushedShapeOf(Flat(b), key);
    PushedShapeOf(Flat(b) + [key], value);
    FlatConcat(b, [(key, value)]);
    FlatPair((key, value));
    assert Flat(b) + [key] + [value] == Flat(b) + [key, value];
    l.Push(key);
    l.Push(value);
    return Done(()), true;
  }

  /** list_entry_delete on a list in good order. */
  method RemoveNode(l: List, ent: Entry, ghost i: nat, ghost v: seq<Text>)
    requires l.Chain() && l.View() == ShapeOf(v) && i < |l.spine| && l.spine[i] == ent
    modifies l, l.spine
    ensures |v| == |old(l.spine)| && l.Chain() && l.View() == Deleted(ShapeOf(v), i) && l.spine == Drop(old(l.spine), i)
    ensures ent.freed
  {
    assert l.View().back[i];
    l.DeleteLinked(ent, i);
  }

  /** The node after `ent`, then `ent` itself. */
  method RemoveTwo(l: List, ent: Entry, ghost i: nat, ghost v: seq<Text>)
    requires l.Chain() && l.View() == ShapeOf(v) && i + 1 < |l.spine| == |v| && l.spine[i] == ent
    modifies l, l.spine
    ensures l.Chain() && l.View() == ShapeOf(v[..i] + v[i + 2..])
    ensures l.spine == old(l.spine[..i]) + old(l.spine[i + 2..])
    ensures old(l.spine[i]).freed && old(l.spine[i + 1]).freed
  {
    DeletedShapeOf(v, i + 1);
    DeletedShapeOf(Drop(v, i + 1), i);
    DropTwo(v, i);
    DropTwo(l.spine, i);
    RemoveNode(l, ent.next, i + 1, v);
    RemoveNode(l, ent, i, Drop(v, i + 1));
  }

  /** hash_delete on its bucket: the node after the one found, then that one. */
  method DeleteIn(l: List, key: Text, ghost b: Bucket) returns (r: Outcome<()>)
    requires Holds(l, b)
    modifies l, l.spine
    ensures match BucketDelete(b, key)
            case Done(b') => r == Done(()) && Holds(l, b')
            case Fault => r == Fault && Holds(l, b)
            case Missing => r == Missing && Holds(l, b)
    ensures forall i :: 0 <= i < |l.spine| ==> l.spine[i] in old(l.spine)
    ensures forall i :: 0 <= i < |old(l.spine)| ==> old(l.spine)[i] in l.spine || old(l.spine)[i].freed
  {
    var ent, i := SearchNodes(l, key, b);
    if ent == null {
      return Missing;
    }
    FlatDelete(b, Search(b, key), i);
    if ent.next == null {
      return Fault;
    }
    ghost var was := l.spine;
    RemoveTwo(l, ent, i, Flat(b));
    StillThere(was, i);
    r := Done(());
  }

  lemma DeletedShapeOf(v: seq<Text>, k: nat)
    requires k < |v|
    ensures Deleted(ShapeOf(v), k) == ShapeOf(Drop(v, k))
  {
    var s := Deleted(ShapeOf(v), k);
    assert s.back == AllBack(|v| - 1);
  }

  lemma StillThere<T>(v: seq<T>, i: nat)
    requires i + 1 < |v|
    ensures forall n :: 0 <= n < |v| && n != i && n != i + 1 ==> v[n] in v[..i] + v[i + 2..]
    ensures forall x :: x in v[..i] + v[i + 2..] ==> x in v
  {
    var w := v[..i] + v[i + 2..];
    forall n | 0 <= n < |v| && n != i && n != i + 1
      ensures v[n] in w
    {
      assert v[n] == w[if n < i then n else n - 2];
    }
  }

  lemma DropTwo<T>(v: seq<T>, i: nat)
    requires i + 1 < |v|
    ensures Drop(Drop(v, i + 1), i) == v[..i] + v[i + 2..]
  {
  }
}
