/** Exactly which runs of hash.c behave as runs on a plain map. */
module TableExactness {
  import opened Bytes
  import opened Tables
  import opened TableRuns

  // ----- one step

  /** A write that the search leads astray takes a key away. */
  lemma AstraySet(t: Hash, m: Dict, k: Text, v: Text, j: nat)
    requires Represents(t, m) && Search(BucketOf(t, k), k) == AtValue(j) && j + 1 < |BucketOf(t, k)|
    requires BucketOf(t, k)[j + 1].0 != v
    ensures Set(t, k, v).Some? && !Represents(Set(t, k, v).value, m[k := v])
  {
    var b, t' := BucketOf(t, k), Set(t, k, v).value;
    var u := b[j + 1].0;
    assert Distinct(b) && InSlot(b, Slot(k));
    LookupAt(b, j + 1);
    assert Lookup(BucketOf(t, u), u) == Answer(m, u);
    var b' := b[j + 1 := (v, b[j + 1].1)];
    assert BucketOf(t', u) == b';
    assert forall i :: 0 <= i < |b'| ==> b'[i].0 != u;
    assert Lookup(b', u) == None && u in m[k := v];
  }

  lemma SetStepExact(t: Hash, m: Dict, k: Text, v: Text)
    requires Represents(t, m)
    ensures (Set(t, k, v).Some? && Represents(Set(t, k, v).value, m[k := v])) <==> HarmlessSet(BucketOf(t, k), k, v)
  {
    var b := BucketOf(t, k);
    assert Lookup(b, k) == Answer(m, k);
    if !Shadowed(b, k) {
      SetRepresents(t, m, k, v);
    } else {
      var j := ValueIndex(b, k);
      if j + 1 < |b| {
        if b[j + 1].0 != v {
          AstraySet(t, m, k, v, j);
        } else {
          assert b[j + 1 := (v, b[j + 1].1)] == b && t.buckets[Slot(k) := b] == t.buckets;
          assert Set(t, k, v) == Some(t);
          if Lookup(b, k) == Some(v) {
            assert m[k := v] == m;
          }
        }
      }
    }
  }

  /** A deletion that the search leads astray takes another key away, or changes a value. */
  lemma AstrayDelete(t: Hash, m: Dict, k: Text, j: nat)
    requires Represents(t, m) && Search(BucketOf(t, k), k) == AtValue(j) && j + 1 < |BucketOf(t, k)|
    requires BucketOf(t, k)[j + 1] != (k, k)
    ensures Delete(t, k).Done? && !Represents(Delete(t, k).value, m - {k})
  {
    var b, t' := BucketOf(t, k), Delete(t, k).value;
    var w, u := b[j].0, b[j + 1].0;
    assert Distinct(b) && InSlot(b, Slot(k));
    LookupAt(b, j);
    LookupAt(b, j + 1);
    assert Lookup(BucketOf(t, u), u) == Answer(m, u) && Lookup(BucketOf(t, w), w) == Answer(m, w);
    assert BucketOf(t', u) == BucketOf(t', w) == BucketOf(t', k);
    CutAcross(b, j, u);
    CutAcross(b, j, w);
    if u != k {
      assert Lookup(BucketOf(t', u), u) == None && u in m - {k};
    } else {
      assert Lookup(BucketOf(t', w), w) == Some(b[j + 1].1) && Answer(m - {k}, w) == Some(k);
    }
  }

  lemma HarmlessStep(t: Hash, m: Dict, k: Text, j: nat)
    requires Represents(t, m) && Search(BucketOf(t, k), k) == AtValue(j) && j + 1 < |BucketOf(t, k)|
    requires BucketOf(t, k)[j + 1] == (k, k)
    ensures Delete(t, k).Done? && Represents(Delete(t, k).value, m - {k}) && k in m
  {
    var b := BucketOf(t, k);
    assert Distinct(b) && InSlot(b, Slot(k)) && Lookup(b, k) == Answer(m, k);
    LookupAt(b, j + 1);
    var b' := BucketDelete(b, k).value;
    assert [(b[j].0, k)] + b[j + 2..] == [b[j]] + b[j + 2..];
    assert b' == b[..j + 1] + b[j + 2..];
    RemovedLookup(b, j + 1, k);
    DeleteExact(b, k);
    assert InSlot(b', Slot(k));
    ReplacedBucket(t, k, b', -1);
    ReplacedAnswers(t, m, k, b', -1, m - {k});
    assert (m - {k}).Keys == m.Keys - {k};
  }

  /** The deletion does to the table what it does to the map. */
  ghost predicate DeleteTracks(t: Hash, m: Dict, k: Text) {
    match Delete(t, k)
    case Done(t') => k in m && Represents(t', m - {k})
    case Missing => k !in m
    case Fault => false
  }

  lemma DeleteStepExact(t: Hash, m: Dict, k: Text)
    requires Represents(t, m)
    ensures DeleteTracks(t, m, k) <==> HarmlessDelete(BucketOf(t, k), k)
  {
    var b := BucketOf(t, k);
    assert Lookup(b, k) == Answer(m, k);
    if !Shadowed(b, k) {
      DeleteRepresents(t, m, k);
    } else {
      var j := ValueIndex(b, k);
      if j + 1 < |b| {
        if b[j + 1] == (k, k) {
          HarmlessStep(t, m, k, j);
          LookupAt(b, j + 1);
        } else {
          AstrayDelete(t, m, k, j);
          if b[j + 1].0 == k {
            LookupAt(b, j + 1);
          }
        }
      }
    }
  }

  // ----- questions

  /** No key of the slot of `k` has `k` for its value. */
  ghost predicate NowhereAValue(m: Dict, k: Text) {
    forall q :: q in m && Slot(q) == Slot(k) ==> m[q] != k
  }

  /** The value is stored under some key of the slot before or after `k`. */
  lemma ValueInSlot(t: Hash, m: Dict, k: Text)
    requires Represents(t, m)
    ensures ValueIndex(BucketOf(t, k), k) == |BucketOf(t, k)| <==> NowhereAValue(m, k)
  {
    var b := BucketOf(t, k);
    var j := ValueIndex(b, k);
    assert Distinct(b) && InSlot(b, Slot(k));
    if j < |b| {
      LookupAt(b, j);
      assert Lookup(BucketOf(t, b[j].0), b[j].0) == Answer(m, b[j].0);
    }
    forall q | q in m && Slot(q) == Slot(k) && j == |b|
      ensures m[q] != k
    {
      assert Lookup(BucketOf(t, q), q) == Answer(m, q);
      assert b[KeyIndex(b, q)].1 == m[q];
    }
  }

  /** hash_key_exists tells the truth about every key that is there, and about one that is not
      exactly when it is nowhere the value of a key of its slot. */
  lemma KeyExistsExact(t: Hash, m: Dict, k: Text)
    requires Represents(t, m)
    ensures KeyExists(t, k) == Done(k in m) <==> k in m || NowhereAValue(m, k)
  {
    var b := BucketOf(t, k);
    assert Lookup(b, k) == Answer(m, k);
    ValueInSlot(t, m, k);
  }

  /** The key that stands behind the first stored value equal to `k`. */
  function KeyBehind(b: Bucket, k: Text): Option<Text> {
    var j := ValueIndex(b, k) + 1;
    if j < |b| then Some(b[j].0) else None
  }

  /** hash_get answers as the map does: always when the key is nowhere a value of its slot; when
      it is, only if the key is there, and either stands before the first such value or has for
      its own value the key that happens to stand behind it. */
  lemma GetExact(t: Hash, m: Dict, k: Text)
    requires Represents(t, m)
    ensures Get(t, k) == (if k in m then Done(m[k]) else Missing) <==>
            NowhereAValue(m, k) ||
            (k in m && (KeyIndex(BucketOf(t, k), k) <= ValueIndex(BucketOf(t, k), k) ||
                        KeyBehind(BucketOf(t, k), k) == Some(m[k])))
  {
    var b := BucketOf(t, k);
    assert Lookup(b, k) == Answer(m, k);
    ValueInSlot(t, m, k);
  }

  // ----- whole runs

  /** After every hash_set that hash_from_list makes, the table holds the map. */
  ghost predicate ListTracks(t: Hash, m: Dict, list: seq<Text>)
    decreases |list|
  {
    |list| >= 2 ==>
      && Set(t, list[0], list[1]).Some?
      && Represents(Set(t, list[0], list[1]).value, m[list[0] := list[1]])
      && ListTracks(Set(t, list[0], list[1]).value, m[list[0] := list[1]], list[2..])
  }

  predicate HarmlessList(t: Hash, list: seq<Text>)
    decreases |list|
  {
    |list| >= 2 ==>
      && HarmlessSet(BucketOf(t, list[0]), list[0], list[1])
      && (Set(t, list[0], list[1]).Some? ==> HarmlessList(Set(t, list[0], list[1]).value, list[2..]))
  }

  ghost predicate StepTracks(t: Hash, m: Dict, op: HashOp) {
    match op
    case SetOp(k, v) => Set(t, k, v).Some? && Represents(Set(t, k, v).value, m[k := v])
    case DeleteOp(k) => DeleteTracks(t, m, k)
    case TruncateOp => true
    case FromListOp(list) => |list| % 2 == 0 ==> ListTracks(t, m, list)
  }

  predicate Harmless(t: Hash, op: HashOp) {
    match op
    case SetOp(k, v) => HarmlessSet(BucketOf(t, k), k, v)
    case DeleteOp(k) => HarmlessDelete(BucketOf(t, k), k)
    case TruncateOp => true
    case FromListOp(list) => |list| % 2 == 0 ==> HarmlessList(t, list)
  }

  /** The table holds the map at every step of the run. */
  ghost predicate Tracks(t: Hash, m: Dict, ops: seq<HashOp>)
    decreases |ops|
  {
    ops != [] ==>
      && StepTracks(t, m, ops[0])
      && AfterOp(t, ops[0]).Some?
      && Tracks(AfterOp(t, ops[0]).value, DictApply(m, ops[0]), ops[1..])
  }

  /** No search of the run does harm. */
  predicate HarmlessRun(t: Hash, ops: seq<HashOp>)
    decreases |ops|
  {
    ops != [] ==> Harmless(t, ops[0]) && (AfterOp(t, ops[0]).Some? ==> HarmlessRun(AfterOp(t, ops[0]).value, ops[1..]))
  }

  lemma {:induction false} ListExact(t: Hash, m: Dict, list: seq<Text>)
    requires Represents(t, m)
    ensures ListTracks(t, m, list) <==> HarmlessList(t, list)
    ensures ListTracks(t, m, list) ==> SetAll(t, list).Some? && Represents(SetAll(t, list).value, DictSetAll(m, list))
    decreases |list|
  {
    if |list| >= 2 {
      SetStepExact(t, m, list[0], list[1]);
      if HarmlessSet(BucketOf(t, list[0]), list[0], list[1]) {
        ListExact(Set(t, list[0], list[1]).value, m[list[0] := list[1]], list[2..]);
      }
    }
  }

  lemma DeleteFollows(t: Hash, m: Dict, k: Text)
    requires Represents(t, m) && DeleteTracks(t, m, k)
    ensures AfterOp(t, DeleteOp(k)).Some? && Represents(AfterOp(t, DeleteOp(k)).value, m - {k})
  {
    if k !in m {
      assert m - {k} == m;
    }
  }

  lemma StepExact(t: Hash, m: Dict, op: HashOp)
    requires Represents(t, m)
    ensures StepTracks(t, m, op) <==> Harmless(t, op)
    ensures StepTracks(t, m, op) ==> AfterOp(t, op).Some? && Represents(AfterOp(t, op).value, DictApply(m, op))
  {
    match op
    case SetOp(k, v) => SetStepExact(t, m, k, v);
    case DeleteOp(k) =>
      DeleteStepExact(t, m, k);
      if DeleteTracks(t, m, k) {
        DeleteFollows(t, m, k);
      }
    case TruncateOp => NewRepresents();
    case FromListOp(list) => ListExact(t, m, list);
  }

  /** A run behaves as a run on a plain map, at every step, exactly when no search of it does
      harm; then it never faults. */
  lemma {:induction false} RunExact(t: Hash, m: Dict, ops: seq<HashOp>)
    requires Represents(t, m)
    ensures Tracks(t, m, ops) <==> HarmlessRun(t, ops)
    ensures Tracks(t, m, ops) ==> AfterOps(t, ops).Some? && Represents(AfterOps(t, ops).value, DictRun(m, ops))
    decreases |ops|
  {
    if ops != [] {
      StepExact(t, m, ops[0]);
      if Harmless(t, ops[0]) {
        RunExact(AfterOp(t, ops[0]).value, DictApply(m, ops[0]), ops[1..]);
      }
    }
  }

  /** What is asked after a run whose searches do no harm. */
  lemma AnswersAfterRun(ops: seq<HashOp>, k: Text)
    requires HarmlessRun(NEW_TABLE, ops)
    ensures AfterOps(NEW_TABLE, ops).Some?
    ensures var t, m := AfterOps(NEW_TABLE, ops).value, DictRun(map[], ops);
            && (KeyExists(t, k) == Done(k in m) <==> k in m || NowhereAValue(m, k))
            && (NowhereAValue(m, k) ==> Get(t, k) == if k in m then Done(m[k]) else Missing)
  {
    NewRepresents();
    RunExact(NEW_TABLE, map[], ops);
    var t, m := AfterOps(NEW_TABLE, ops).value, DictRun(map[], ops);
    KeyExistsExact(t, m, k);
    GetExact(t, m, k);
  }
}
