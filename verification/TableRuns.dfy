/** Whole hash tables: runs of operations against a plain map, and enumeration. */
module TableRuns {
  import opened Bytes
  import opened Tables

  datatype Table = Table(buckets: seq<Bucket>, count: int)

  function NoBuckets(): (b: seq<Bucket>)
    ensures |b| == SLOTS && forall s :: 0 <= s < SLOTS ==> b[s] == []
  {
    seq(SLOTS, _ => [])
  }

  const NEW_TABLE := Table(NoBuckets(), 0)

  type Hash = t: Table | |t.buckets| == SLOTS witness NEW_TABLE

  function BucketOf(t: Hash, k: Text): Bucket {
    t.buckets[Slot(k)]
  }

  function WithBucket(t: Hash, k: Text, b: Bucket, change: int): Hash {
    Table(t.buckets[Slot(k) := b], t.count + change)
  }

  /** hash_set: None stands for the NULL dereference. */
  function Set(t: Hash, k: Text, v: Text): Option<Hash> {
    var b := BucketOf(t, k);
    match BucketSet(b, k, v)
    case Done(b') => Some(WithBucket(t, k, b', if Search(b, k) == NoHit then 1 else 0))
    case _ => None
  }

  /** hash_delete. */
  function Delete(t: Hash, k: Text): Outcome<Hash> {
    match BucketDelete(BucketOf(t, k), k)
    case Done(b') => Done(WithBucket(t, k, b', -1))
    case Missing => Missing
    case Fault => Fault
  }

  /** hash_get. */
  function Get(t: Hash, k: Text): Outcome<Text> {
    Following(BucketOf(t, k), Search(BucketOf(t, k), k))
  }

  /** hash_key_exists. */
  function KeyExists(t: Hash, k: Text): Outcome<bool> {
    match Get(t, k)
    case Done(_) => Done(true)
    case Missing => Done(false)
    case Fault => Fault
  }

  /** The loop of hash_from_list, for a list of even length. */
  function SetAll(t: Hash, list: seq<Text>): Option<Hash>
    decreases |list|
  {
    if |list| < 2 then Some(t)
    else
      match Set(t, list[0], list[1])
      case None => None
      case Some(t') => SetAll(t', list[2..])
  }

  datatype HashOp = SetOp(k: Text, v: Text) | DeleteOp(k: Text) | TruncateOp | FromListOp(list: seq<Text>)

  /** One operation; one that fails leaves the table alone. */
  function AfterOp(t: Hash, op: HashOp): Option<Hash> {
    match op
    case SetOp(k, v) => Set(t, k, v)
    case DeleteOp(k) => (match Delete(t, k) case Done(t') => Some(t') case Missing => Some(t) case Fault => None)
    case TruncateOp => Some(NEW_TABLE)
    case FromListOp(list) => if |list| % 2 == 0 then SetAll(t, list) else Some(t)
  }

  function AfterOps(t: Hash, ops: seq<HashOp>): Option<Hash>
    decreases |ops|
  {
    if ops == [] then Some(t)
    else
      match AfterOp(t, ops[0])
      case None => None
      case Some(t') => AfterOps(t', ops[1..])
  }

  // ----- the plain map

  type Dict = map<Text, Text>

  function DictSetAll(m: Dict, list: seq<Text>): Dict
    decreases |list|
  {
    if |list| < 2 then m else DictSetAll(m[list[0] := list[1]], list[2..])
  }

  function DictApply(m: Dict, op: HashOp): Dict {
    match op
    case SetOp(k, v) => m[k := v]
    case DeleteOp(k) => m - {k}
    case TruncateOp => map[]
    case FromListOp(list) => if |list| % 2 == 0 then DictSetAll(m, list) else m
  }

  function DictRun(m: Dict, ops: seq<HashOp>): Dict
    decreases |ops|
  {
    if ops == [] then m else DictRun(DictApply(m, ops[0]), ops[1..])
  }

  /** Every bucket has distinct keys, all of its own slot. */
  predicate WellFormed(t: Hash) {
    forall s :: 0 <= s < SLOTS ==> Distinct(t.buckets[s]) && InSlot(t.buckets[s], s)
  }

  predicate InSlot(b: Bucket, s: nat) {
    forall i :: 0 <= i < |b| ==> Slot(b[i].0) == s
  }

  function Answer(m: Dict, k: Text): Option<Text> {
    if k in m then Some(m[k]) else None
  }

  /** The table holds exactly the map, and counts its entries. */
  ghost predicate Represents(t: Hash, m: Dict) {
    && WellFormed(t) && t.count == |m|
    && forall q :: Lookup(BucketOf(t, q), q) == Answer(m, q)
  }

  lemma NewRepresents()
    ensures Represents(NEW_TABLE, map[])
  {
  }

  lemma ReplacedBucket(t: Hash, k: Text, b: Bucket, change: int)
    requires WellFormed(t) && Distinct(b) && InSlot(b, Slot(k))
    ensures WellFormed(WithBucket(t, k, b, change))
  {
  }

  /** A bucket that changes its answer for one key changes the table's answer for that key. */
  lemma ReplacedAnswers(t: Hash, m: Dict, k: Text, b: Bucket, change: int, m': Dict)
    requires forall q :: Lookup(BucketOf(t, q), q) == Answer(m, q)
    requires forall q :: Lookup(b, q) == if q == k then Answer(m', k) else Lookup(BucketOf(t, k), q)
    requires forall q :: q != k ==> Answer(m', q) == Answer(m, q)
    ensures forall q :: Lookup(BucketOf(WithBucket(t, k, b, change), q), q) == Answer(m', q)
  {
    var t' := WithBucket(t, k, b, change);
    forall q
      ensures Lookup(BucketOf(t', q), q) == Answer(m', q)
    {
      assert Lookup(BucketOf(t, q), q) == Answer(m, q);
      assert BucketOf(t', q) == if Slot(q) == Slot(k) then b else BucketOf(t, q);
    }
  }

  lemma SetRepresents(t: Hash, m: Dict, k: Text, v: Text)
    requires Represents(t, m) && !Shadowed(BucketOf(t, k), k)
    ensures Set(t, k, v).Some? && Represents(Set(t, k, v).value, m[k := v])
  {
    var b := BucketOf(t, k);
    UnshadowedSet(b, k, v);
    var b', change := BucketSet(b, k, v).value, if Search(b, k) == NoHit then 1 else 0;
    SetInSlot(b, k, v, Slot(k));
    ReplacedBucket(t, k, b', change);
    ReplacedAnswers(t, m, k, b', change, m[k := v]);
    assert Lookup(b, k) == Answer(m, k);
    assert m[k := v].Keys == m.Keys + {k};
  }

  lemma SetInSlot(b: Bucket, k: Text, v: Text, s: nat)
    requires InSlot(b, s) && Slot(k) == s && !Shadowed(b, k)
    ensures InSlot(BucketSet(b, k, v).value, s)
  {
  }

  lemma DeleteInSlot(b: Bucket, k: Text, s: nat)
    requires InSlot(b, s) && !Shadowed(b, k)
    ensures BucketDelete(b, k).Done? ==> InSlot(BucketDelete(b, k).value, s)
  {
  }

  lemma DeleteRepresents(t: Hash, m: Dict, k: Text)
    requires Represents(t, m) && !Shadowed(BucketOf(t, k), k)
    ensures if k in m then Delete(t, k).Done? && Represents(Delete(t, k).value, m - {k})
            else Delete(t, k) == Missing && m - {k} == m
  {
    var b := BucketOf(t, k);
    UnshadowedDelete(b, k);
    assert Lookup(b, k) == Answer(m, k);
    if k in m {
      var b' := BucketDelete(b, k).value;
      DeleteInSlot(b, k, Slot(k));
      ReplacedBucket(t, k, b', -1);
      ReplacedAnswers(t, m, k, b', -1, m - {k});
      assert (m - {k}).Keys == m.Keys - {k};
    }
  }

  /** No search of the list's keys is shadowed. */
  predicate CleanList(t: Hash, list: seq<Text>)
    decreases |list|
  {
    |list| >= 2 ==>
      && !Shadowed(BucketOf(t, list[0]), list[0])
      && (Set(t, list[0], list[1]).Some? ==> CleanList(Set(t, list[0], list[1]).value, list[2..]))
  }

  /** The operation searches for no shadowed key. */
  predicate Clean(t: Hash, op: HashOp) {
    match op
    case SetOp(k, _) => !Shadowed(BucketOf(t, k), k)
    case DeleteOp(k) => !Shadowed(BucketOf(t, k), k)
    case TruncateOp => true
    case FromListOp(list) => |list| % 2 == 0 ==> CleanList(t, list)
  }

  predicate CleanRun(t: Hash, ops: seq<HashOp>)
    decreases |ops|
  {
    ops != [] ==> Clean(t, ops[0]) && (AfterOp(t, ops[0]).Some? ==> CleanRun(AfterOp(t, ops[0]).value, ops[1..]))
  }

  lemma {:induction false} SetAllRepresents(t: Hash, m: Dict, list: seq<Text>)
    requires Represents(t, m) && CleanList(t, list)
    ensures SetAll(t, list).Some? && Represents(SetAll(t, list).value, DictSetAll(m, list))
    decreases |list|
  {
    if |list| >= 2 {
      SetRepresents(t, m, list[0], list[1]);
      SetAllRepresents(Set(t, list[0], list[1]).value, m[list[0] := list[1]], list[2..]);
    }
  }

  lemma ApplyRepresents(t: Hash, m: Dict, op: HashOp)
    requires Represents(t, m) && Clean(t, op)
    ensures AfterOp(t, op).Some? && Represents(AfterOp(t, op).value, DictApply(m, op))
  {
    match op
    case SetOp(k, v) => SetRepresents(t, m, k, v);
    case DeleteOp(k) => DeleteRepresents(t, m, k);
    case TruncateOp => NewRepresents();
    case FromListOp(list) =>
      if |list| % 2 == 0 {
        SetAllRepresents(t, m, list);
      }
  }

  /** A run whose searches are never shadowed behaves as a plain map, and never faults. */
  lemma {:induction false} CleanRunRefinesMap(t: Hash, m: Dict, ops: seq<HashOp>)
    requires Represents(t, m) && CleanRun(t, ops)
    ensures AfterOps(t, ops).Some? && Represents(AfterOps(t, ops).value, DictRun(m, ops))
    decreases |ops|
  {
    if ops != [] {
      ApplyRepresents(t, m, ops[0]);
      CleanRunRefinesMap(AfterOp(t, ops[0]).value, DictApply(m, ops[0]), ops[1..]);
    }
  }

  // ----- keys and values kept apart

  predicate PairsIn(b: Bucket, keys: set<Text>, values: set<Text>) {
    forall i :: 0 <= i < |b| ==> b[i].0 in keys && b[i].1 in values
  }

  predicate HoldsOnly(t: Hash, keys: set<Text>, values: set<Text>) {
    forall s :: 0 <= s < SLOTS ==> PairsIn(t.buckets[s], keys, values)
  }

  predicate ListUsesOnly(list: seq<Text>, keys: set<Text>, values: set<Text>) {
    forall i :: 0 <= i < |list| ==> if i % 2 == 0 then list[i] in keys else list[i] in values
  }

  predicate UsesOnly(op: HashOp, keys: set<Text>, values: set<Text>) {
    match op
    case SetOp(k, v) => k in keys && v in values
    case DeleteOp(k) => k in keys
    case TruncateOp => true
    case FromListOp(list) => ListUsesOnly(list, keys, values)
  }

  lemma NoValueIsKey(t: Hash, keys: set<Text>, values: set<Text>, k: Text)
    requires keys !! values && HoldsOnly(t, keys, values) && k in keys
    ensures !Shadowed(BucketOf(t, k), k)
  {
    var b := BucketOf(t, k);
    assert PairsIn(b, keys, values);
  }

  lemma SetHoldsOnly(t: Hash, keys: set<Text>, values: set<Text>, k: Text, v: Text)
    requires HoldsOnly(t, keys, values) && k in keys && v in values && !Shadowed(BucketOf(t, k), k)
    ensures Set(t, k, v).Some? ==> HoldsOnly(Set(t, k, v).value, keys, values)
  {
    assert PairsIn(BucketOf(t, k), keys, values);
  }

  lemma DeleteHoldsOnly(t: Hash, keys: set<Text>, values: set<Text>, k: Text)
    requires HoldsOnly(t, keys, values) && !Shadowed(BucketOf(t, k), k)
    ensures Delete(t, k).Done? ==> HoldsOnly(Delete(t, k).value, keys, values)
  {
    assert PairsIn(BucketOf(t, k), keys, values);
  }

  lemma {:induction false} SetAllHoldsOnly(t: Hash, keys: set<Text>, values: set<Text>, list: seq<Text>)
    requires keys !! values && HoldsOnly(t, keys, values) && ListUsesOnly(list, keys, values)
    ensures CleanList(t, list)
    ensures SetAll(t, list).Some? ==> HoldsOnly(SetAll(t, list).value, keys, values)
    decreases |list|
  {
    if |list| >= 2 {
      NoValueIsKey(t, keys, values, list[0]);
      SetHoldsOnly(t, keys, values, list[0], list[1]);
      var t' := Set(t, list[0], list[1]);
      if t'.Some? {
        assert forall i :: 0 <= i < |list| - 2 ==> list[2..][i] == list[i + 2];
        SetAllHoldsOnly(t'.value, keys, values, list[2..]);
      }
    }
  }

  lemma ApplyHoldsOnly(t: Hash, keys: set<Text>, values: set<Text>, op: HashOp)
    requires keys !! values && HoldsOnly(t, keys, values) && UsesOnly(op, keys, values)
    ensures Clean(t, op)
    ensures AfterOp(t, op).Some? ==> HoldsOnly(AfterOp(t, op).value, keys, values)
  {
    match op
    case SetOp(k, v) =>
      NoValueIsKey(t, keys, values, k);
      SetHoldsOnly(t, keys, values, k, v);
    case DeleteOp(k) =>
      NoValueIsKey(t, keys, values, k);
      DeleteHoldsOnly(t, keys, values, k);
    case TruncateOp =>
    case FromListOp(list) => SetAllHoldsOnly(t, keys, values, list);
  }

  lemma {:induction false} ApartRunIsClean(t: Hash, keys: set<Text>, values: set<Text>, ops: seq<HashOp>)
    requires keys !! values && HoldsOnly(t, keys, values)
    requires forall i :: 0 <= i < |ops| ==> UsesOnly(ops[i], keys, values)
    ensures CleanRun(t, ops)
    decreases |ops|
  {
    if ops != [] {
      ApplyHoldsOnly(t, keys, values, ops[0]);
      if AfterOp(t, ops[0]).Some? {
        ApartRunIsClean(AfterOp(t, ops[0]).value, keys, values, ops[1..]);
      }
    }
  }

  /** From an empty table, a program that never uses one string both as a key and as a value
      gets a plain map. */
  lemma {:induction false} ApartRunRefinesMap(keys: set<Text>, values: set<Text>, ops: seq<HashOp>)
    requires keys !! values && forall i :: 0 <= i < |ops| ==> UsesOnly(ops[i], keys, values)
    ensures AfterOps(NEW_TABLE, ops).Some?
    ensures Represents(AfterOps(NEW_TABLE, ops).value, DictRun(map[], ops))
    ensures forall k :: k in keys ==>
              Get(AfterOps(NEW_TABLE, ops).value, k) == if k in DictRun(map[], ops) then Done(DictRun(map[], ops)[k]) else Missing
  {
    ApartRunIsClean(NEW_TABLE, keys, values, ops);
    NewRepresents();
    CleanRunRefinesMap(NEW_TABLE, map[], ops);
    ApartRunHolds(NEW_TABLE, keys, values, ops);
    var t, m := AfterOps(NEW_TABLE, ops).value, DictRun(map[], ops);
    forall k | k in keys
      ensures Get(t, k) == if k in m then Done(m[k]) else Missing
    {
      NoValueIsKey(t, keys, values, k);
      assert Lookup(BucketOf(t, k), k) == Answer(m, k);
    }
  }

  lemma {:induction false} ApartRunHolds(t: Hash, keys: set<Text>, values: set<Text>, ops: seq<HashOp>)
    requires keys !! values && HoldsOnly(t, keys, values)
    requires forall i :: 0 <= i < |ops| ==> UsesOnly(ops[i], keys, values)
    ensures AfterOps(t, ops).Some? ==> HoldsOnly(AfterOps(t, ops).value, keys, values)
    decreases |ops|
  {
    if ops != [] {
      ApplyHoldsOnly(t, keys, values, ops[0]);
      if AfterOp(t, ops[0]).Some? {
        ApartRunHolds(AfterOp(t, ops[0]).value, keys, values, ops[1..]);
      }
    }
  }

  /** Two keys of one slot, one of them stored as the value of the other: searching for it faults. */
  lemma ShadowedFaults(k: Text, x: Text, v: Text)
    requires k != x && Slot(k) == Slot(x)
    ensures AfterOps(NEW_TABLE, [SetOp(k, x), SetOp(x, v)]) == None
    ensures AfterOps(NEW_TABLE, [SetOp(k, x)]).Some? && Get(AfterOps(NEW_TABLE, [SetOp(k, x)]).value, x) == Fault
  {
    var t := Set(NEW_TABLE, k, x).value;
    assert BucketOf(t, x) == [(k, x)];
    assert [SetOp(k, x), SetOp(x, v)][1..] == [SetOp(x, v)] && [SetOp(k, x)][1..] == [];
    assert Set(t, x, v) == None;
    assert AfterOps(t, []) == Some(t);
  }

  /** For instance, with these keys. */
  lemma ShadowedExample()
    ensures AfterOps(NEW_TABLE, [SetOp("ab", "ba"), SetOp("ba", "x")]) == None
  {
    var k: Text, x: Text := "ab", "ba";
    assert k[..1] == ['a'] && x[..1] == ['b'] && ['a'][..0] == [] == ['b'][..0];
    assert Xor(['a']) == 97 && Xor(['b']) == 98;
    assert Xor(k) == Xor(['a']) ^ 98 && Xor(x) == Xor(['b']) ^ 97;
    ShadowedFaults(k, x, "x");
  }

  // ----- enumeration

  function Concat(bs: seq<Bucket>): Bucket {
    if bs == [] then [] else bs[0] + Concat(bs[1..])
  }

  /** All pairs, slot by slot, as hash_get_keys and hash_get_values visit them. */
  function AllPairs(t: Hash): Bucket { Concat(t.buckets) }

  function KeysOf(b: Bucket): seq<Text> { seq(|b|, i requires 0 <= i < |b| => b[i].0) }

  function ValuesOf(b: Bucket): seq<Text> { seq(|b|, i requires 0 <= i < |b| => b[i].1) }

  lemma {:induction false} ConcatMembers(bs: seq<Bucket>, p: Pair)
    ensures p in Concat(bs) <==> exists s :: 0 <= s < |bs| && p in bs[s]
  {
    if bs != [] {
      ConcatMembers(bs[1..], p);
      assert forall s :: 0 < s < |bs| ==> bs[s] == bs[1..][s - 1];
    }
  }

  lemma {:induction false} ConcatDistinct(bs: seq<Bucket>, from: nat)
    requires forall s :: 0 <= s < |bs| ==> Distinct(bs[s]) && InSlot(bs[s], from + s)
    ensures Distinct(Concat(bs))
    ensures forall i :: 0 <= i < |Concat(bs)| ==> Slot(Concat(bs)[i].0) >= from
  {
    if bs != [] {
      forall s | 0 <= s < |bs| - 1
        ensures Distinct(bs[1..][s]) && InSlot(bs[1..][s], from + 1 + s)
      {
        assert bs[1..][s] == bs[s + 1];
      }
      ConcatDistinct(bs[1..], from + 1);
      assert Distinct(bs[0]) && InSlot(bs[0], from + 0);
    }
  }

  lemma {:induction false} DistinctCount(b: Bucket)
    requires Distinct(b)
    ensures |set i | 0 <= i < |b| :: b[i].0| == |b|
  {
    var keys := set i | 0 <= i < |b| :: b[i].0;
    if b != [] {
      var n := |b| - 1;
      DistinctCount(b[..n]);
      var less := set i | 0 <= i < n :: b[..n][i].0;
      assert keys == less + {b[n].0};
      assert b[n].0 !in less;
    }
  }

  lemma PairAnswers(t: Hash, m: Dict, i: nat)
    requires Represents(t, m) && i < |AllPairs(t)|
    ensures Answer(m, AllPairs(t)[i].0) == Some(AllPairs(t)[i].1)
  {
    var p := AllPairs(t)[i];
    ConcatMembers(t.buckets, p);
    var s :| 0 <= s < SLOTS && p in t.buckets[s];
    var j :| 0 <= j < |t.buckets[s]| && t.buckets[s][j] == p;
    assert InSlot(t.buckets[s], s);
    LookupAt(t.buckets[s], j);
    assert Lookup(BucketOf(t, p.0), p.0) == Answer(m, p.0);
  }

  lemma PairListed(t: Hash, m: Dict, q: Text)
    requires Represents(t, m) && q in m
    ensures (q, m[q]) in AllPairs(t)
  {
    var b := BucketOf(t, q);
    assert Lookup(b, q) == Answer(m, q);
    assert b[KeyIndex(b, q)] == (q, m[q]);
    ConcatMembers(t.buckets, (q, m[q]));
  }

  lemma KeysListed(t: Hash, m: Dict)
    requires Represents(t, m)
    ensures m.Keys == set i | 0 <= i < |AllPairs(t)| :: AllPairs(t)[i].0
    ensures |AllPairs(t)| == |m| && Distinct(AllPairs(t))
  {
    var ps := AllPairs(t);
    var keys := set i | 0 <= i < |ps| :: ps[i].0;
    forall i | 0 <= i < |ps|
      ensures ps[i].0 in m
    {
      PairAnswers(t, m, i);
    }
    forall q | q in m
      ensures q in keys
    {
      PairListed(t, m, q);
      var i :| 0 <= i < |ps| && ps[i] == (q, m[q]);
      assert ps[i].0 == q;
    }
    assert m.Keys == keys;
    ConcatDistinct(t.buckets, 0);
    DistinctCount(ps);
  }

  /** Keys and values come out aligned, each key once, and together they are the map. */
  lemma EnumerationAgrees(t: Hash, m: Dict)
    requires Represents(t, m)
    ensures var keys, values := KeysOf(AllPairs(t)), ValuesOf(AllPairs(t));
            && |keys| == |values| == |m|
            && (forall i, j :: 0 <= i < j < |keys| ==> keys[i] != keys[j])
            && (forall i :: 0 <= i < |keys| ==> keys[i] in m && m[keys[i]] == values[i])
            && (forall q :: q in m ==> q in keys)
            && (forall v :: v in values <==> v in m.Values)
  {
    var ps := AllPairs(t);
    var keys, values := KeysOf(ps), ValuesOf(ps);
    KeysListed(t, m);
    forall i | 0 <= i < |ps|
      ensures keys[i] in m && m[keys[i]] == values[i]
    {
      PairAnswers(t, m, i);
    }
    forall q | q in m
      ensures q in keys && m[q] in values
    {
      PairListed(t, m, q);
      var i :| 0 <= i < |ps| && ps[i] == (q, m[q]);
      assert keys[i] == q && values[i] == m[q];
    }
  }
}
