/** The hash table of hash.c on the heap: an array of lists, created when first needed. */
module HashTables {
  import opened Bytes
  import opened Lists
  import opened Tables
  import opened TableRuns
  import opened BucketLists
  import opened Lines
  import opened HashText

  class HashTable {
    const bucket: array<List?>
    var count: int
    ghost var pairs: seq<Bucket>
    ghost var Repr: set<object>

    /** The list of slot `s`, if there is one, holds the pairs of that slot. */
    ghost predicate SlotValid(s: nat)
      requires s < bucket.Length == |pairs|
      reads this, bucket, Repr
    {
      var l := bucket[s];
      if l == null then pairs[s] == []
      else
        && l in Repr && (forall i :: 0 <= i < |l.spine| ==> l.spine[i] in Repr)
        && Holds(l, pairs[s])
    }

    /** The lists of two slots share nothing. */
    ghost predicate SlotsApart(s: nat, z: nat)
      requires s < bucket.Length && z < bucket.Length
      reads this, bucket, Repr
    {
      bucket[s] != null && bucket[z] != null && bucket[s] in Repr && bucket[z] in Repr ==>
        && bucket[s] != bucket[z]
        && forall i :: 0 <= i < |bucket[s].spine| ==> bucket[s].spine[i] !in bucket[z].spine
    }

    ghost predicate Valid()
      reads this, bucket, Repr
    {
      && this in Repr && bucket in Repr
      && bucket.Length == |pairs| == SLOTS
      && (forall s :: 0 <= s < SLOTS ==> SlotValid(s))
      && (forall s, z :: 0 <= s < SLOTS && 0 <= z < SLOTS && s != z ==> SlotsApart(s, z))
    }

    ghost function Contents(): Hash
      reads this
      requires |pairs| == SLOTS
    {
      Table(pairs, count)
    }

    /** hash_new. */
    constructor ()
      ensures Valid() && Contents() == NEW_TABLE && fresh(Repr)
    {
      bucket := new List?[SLOTS](_ => null);
      count := 0;
      pairs := NoBuckets();
      Repr := {this, bucket};
    }

    /** hash_get. */
    method Get(key: Text) returns (r: Outcome<Text>)
      requires Valid()
      ensures r == TableRuns.Get(Contents(), key)
    {
      var slot := HashFunction(key);
      assert SlotValid(slot);
      if bucket[slot] == null {
        return Missing;
      }
      r := GetIn(bucket[slot], key, pairs[slot]);
    }

    /** The list of a slot, created when it is first needed. */
    method ListFor(slot: nat) returns (l: List)
      requires Valid() && slot < SLOTS
      modifies this, bucket
      ensures Valid() && fresh(Repr - old(Repr))
      ensures l == bucket[slot] && Contents() == old(Contents())
    {
      assert SlotValid(slot);
      if bucket[slot] == null {
        l := new List();
        bucket[slot] := l;
        Repr := Repr + {l};
        forall z | 0 <= z < SLOTS
          ensures SlotValid(z)
        {
          assert old(SlotValid(z));
        }
        forall s, z | 0 <= s < SLOTS && 0 <= z < SLOTS && s != z
          ensures SlotsApart(s, z)
        {
          assert old(SlotsApart(s, z));
        }
      }
      l := bucket[slot];
    }

    /** Work on the list of one slot leaves the other slots as they were. */
    twostate lemma OneListChanged(new slot: nat)
      requires old(Valid()) && slot < SLOTS && bucket.Length == |pairs| == SLOTS
      requires this in Repr && bucket in Repr && old(Repr) <= Repr
      requires bucket[..] == old(bucket[..]) && bucket[slot] != null && SlotValid(slot)
      requires forall z :: 0 <= z < SLOTS && z != slot ==> pairs[z] == old(pairs[z])
      requires forall i :: 0 <= i < |bucket[slot].spine| ==>
                 bucket[slot].spine[i] in old(bucket[slot].spine) || bucket[slot].spine[i] !in old(Repr)
      requires forall o :: o in old(Repr) && o != this && o != bucket && o != bucket[slot] && o !in old(bucket[slot].spine) ==>
                 unchanged(o)
      ensures Valid()
    {
      assert old(SlotValid(slot));
      forall z | 0 <= z < SLOTS && z != slot && bucket[z] != null
        ensures bucket[z] in old(Repr) && bucket[z].spine == old(bucket[z].spine) && SlotValid(z)
        ensures SlotsApart(z, slot) && SlotsApart(slot, z)
        ensures forall i :: 0 <= i < |bucket[z].spine| ==> bucket[z].spine[i] in old(Repr)
      {
        assert bucket[z] == bucket[..][z] == old(bucket[..][z]) && bucket[slot] == bucket[..][slot] == old(bucket[..][slot]);
        assert old(SlotValid(z)) && old(SlotsApart(z, slot)) && old(SlotsApart(slot, z));
      }
      forall z | 0 <= z < SLOTS
        ensures SlotValid(z)
      {
        assert bucket[z] == bucket[..][z] && old(SlotValid(z));
      }
      forall s, z | 0 <= s < SLOTS && 0 <= z < SLOTS && s != z
        ensures SlotsApart(s, z)
      {
        assert bucket[z] == bucket[..][z] && bucket[s] == bucket[..][s] && old(SlotsApart(s, z));
      }
    }

    /** hash_set on the list of the slot, all but the count. */
    method SetInList(slot: nat, key: Text, value: Text) returns (r: Outcome<()>, added: bool)
      requires Valid() && slot == Slot(key) && bucket[slot] != null
      modifies Repr
      ensures Valid() && fresh(Repr - old(Repr)) && count == old(count)
      ensures added == (Search(old(pairs)[slot], key) == NoHit)
      ensures match BucketSet(old(pairs)[slot], key, value)
              case Done(b) => r == Done(()) && pairs == old(pairs)[slot := b]
              case Fault => r == Fault && pairs == old(pairs)
              case Missing => false
    {
      assert SlotValid(slot);
      r, added := SetIn(bucket[slot], key, value, pairs[slot]);
      Repr := Repr + set e | e in bucket[slot].spine;
      if r == Done(()) {
        pairs := pairs[slot := BucketSet(pairs[slot], key, value).value];
      }
      OneListChanged(slot);
    }

    method SetInSlot(slot: nat, key: Text, value: Text) returns (r: Outcome<()>)
      requires Valid() && slot == Slot(key) && bucket[slot] != null
      modifies Repr
      ensures Valid() && fresh(Repr - old(Repr))
      ensures match TableRuns.Set(old(Contents()), key, value)
              case Some(t) => r == Done(()) && Contents() == t
              case None => r == Fault && Contents() == old(Contents())
    {
      var added;
      r, added := SetInList(slot, key, value);
      label written:
      if added {
        count := count + 1;
      }
      CountChanged@written();
    }

    /** The count is no part of the order of the lists. */
    twostate lemma CountChanged()
      requires old(Valid()) && unchanged(this`pairs) && unchanged(this`Repr) && unchanged(bucket)
      requires forall o :: o in Repr && o != this ==> unchanged(o)
      ensures Valid()
    {
      forall s | 0 <= s < SLOTS
        ensures SlotValid(s)
      {
        assert old(SlotValid(s));
      }
      forall s, z | 0 <= s < SLOTS && 0 <= z < SLOTS && s != z
        ensures SlotsApart(s, z)
      {
        assert old(SlotsApart(s, z));
      }
    }

    /** hash_set. */
    method Set(key: Text, value: Text) returns (r: Outcome<()>)
      requires Valid()
      modifies Repr
      ensures Valid() && fresh(Repr - old(Repr))
      ensures match TableRuns.Set(old(Contents()), key, value)
              case Some(t) => r == Done(()) && Contents() == t
              case None => r == Fault && Contents() == old(Contents())
    {
      var slot := HashFunction(key);
      var _ := ListFor(slot);
      r := SetInSlot(slot, key, value);
    }

    /** hash_delete. */
    method Delete(key: Text) returns (r: Outcome<()>)
      requires Valid()
      modifies Repr
      ensures Valid() && Repr == old(Repr)
      ensures match TableRuns.Delete(old(Contents()), key)
              case Done(t) => r == Done(()) && Contents() == t
              case Missing => r == Missing && Contents() == old(Contents())
              case Fault => r == Fault && Contents() == old(Contents())
    {
      var slot := HashFunction(key);
      assert SlotValid(slot);
      var l := bucket[slot];
      if l == null {
        return Missing;
      }
      r := DeleteIn(l, key, pairs[slot]);
      if r == Done(()) {
        pairs := pairs[slot := BucketDelete(pairs[slot], key).value];
        count := count - 1;
      }
      OneListChanged(slot);
    }

    /** hash_key_exists. */
    method KeyExists(key: Text) returns (r: Outcome<bool>)
      requires Valid()
      ensures r == TableRuns.KeyExists(Contents(), key)
    {
      var v := Get(key);
      match v
      case Done(_) => r := Done(true);
      case Missing => r := Done(false);
      case Fault => r := Fault;
    }

    /** One bucket of hash_truncate. */
    method TruncateSlot(slot: nat)
      requires Valid() && slot < SLOTS
      modifies Repr
      ensures Valid() && Repr == old(Repr) && count == old(count) && pairs == old(pairs)[slot := []]
      ensures bucket[..] == old(bucket[..])
      ensures forall z :: 0 <= z < SLOTS && z != slot && bucket[z] != null ==> unchanged(bucket[z])
      ensures forall e: Entry :: e in Repr && old(e.freed) ==> e.freed
      ensures bucket[slot] != null ==> forall e :: e in old(bucket[slot].spine) ==> e.freed
    {
      assert SlotValid(slot);
      if bucket[slot] != null {
        forall z | 0 <= z < SLOTS && z != slot && bucket[z] != null
          ensures bucket[z] != bucket[slot]
        {
          assert SlotsApart(slot, z) && SlotValid(z);
        }
        bucket[slot].Truncate();
        pairs := pairs[slot := []];
        OneListChanged(slot);
      }
    }

    /** hash_truncate. */
    method Truncate()
      requires Valid()
      modifies Repr
      ensures Valid() && Repr == old(Repr) && Contents() == NEW_TABLE && bucket[..] == old(bucket[..])
      ensures forall s, e :: 0 <= s < SLOTS && bucket[s] != null && e in old(bucket[s].spine) ==> e.freed
    {
      for i := 0 to SLOTS
        invariant Valid() && Repr == old(Repr) && bucket[..] == old(bucket[..])
        invariant forall s :: 0 <= s < i ==> pairs[s] == []
        invariant forall s :: i <= s < SLOTS && bucket[s] != null ==> unchanged(bucket[s])
        invariant forall s, e :: 0 <= s < i && bucket[s] != null && e in old(bucket[s].spine) ==> e.freed
      {
        TruncateSlot(i);
      }
      label emptied:
      count := 0;
      assert pairs == NoBuckets();
      CountChanged@emptied();
    }

    /** The pairs of one bucket, in the order of its nodes. */
    method PairsOfSlot(slot: nat) returns (b: Bucket)
      requires Valid() && slot < SLOTS
      ensures b == pairs[slot]
    {
      assert SlotValid(slot);
      b := [];
      if bucket[slot] == null {
        return;
      }
      ghost var p, l := pairs[slot], bucket[slot];
      assert l.View().values == Flat(p);
      var ent := bucket[slot].head;
      while ent != null
        invariant |b| <= |p| && b == p[..|b|]
        invariant ent == if |b| < |p| then l.spine[2 * |b|] else null
        decreases |p| - |b|
      {
        FlatAt(p, |b|);
        assert l.View().values[2 * |b|] == ent.value && l.View().values[2 * |b| + 1] == ent.next.value;
        b := b + [(ent.value, ent.next.value)];
        ent := ent.next.next;
      }
    }

    /** hash_get_keys. */
    method GetKeys() returns (keys: seq<Text>)
      requires Valid()
      ensures keys == KeysOf(AllPairs(Contents()))
    {
      keys := [];
      for i := 0 to SLOTS
        invariant keys == KeysOf(Concat(pairs[..i]))
      {
        var b := PairsOfSlot(i);
        ConcatSnoc(pairs, i);
        keys := keys + KeysOf(b);
      }
      assert pairs[..SLOTS] == pairs;
    }

    /** hash_get_values. */
    method GetValues() returns (values: seq<Text>)
      requires Valid()
      ensures values == ValuesOf(AllPairs(Contents()))
    {
      values := [];
      for i := 0 to SLOTS
        invariant values == ValuesOf(Concat(pairs[..i]))
      {
        var b := PairsOfSlot(i);
        ConcatSnoc(pairs, i);
        values := values + ValuesOf(b);
      }
      assert pairs[..SLOTS] == pairs;
    }

    /** hash_value_exists. */
    method ValueExists(value: Text) returns (found: bool)
      requires Valid()
      ensures found <==> value in ValuesOf(AllPairs(Contents()))
    {
      var values := GetValues();
      found := value in values;
    }

    /** hash_serialize, which appends to its destination. */
    method Serialize(dest: Text) returns (text: Text)
      requires Valid()
      ensures text == dest + Written(AllPairs(Contents()))
    {
      text := dest;
      for i := 0 to SLOTS
        invariant text == dest + Written(Concat(pairs[..i]))
      {
        var b := PairsOfSlot(i);
        ConcatSnoc(pairs, i);
        WrittenConcat(Concat(pairs[..i]), b);
        ghost var done := Written(Concat(pairs[..i]));
        text := WritePairs(text, b);
        assert dest + done + Written(b) == dest + (done + Written(b));
      }
      assert pairs[..SLOTS] == pairs;
    }

    /** hash_deserialize, line by line into the table. */
    method Deserialize(text: Text) returns (r: Outcome<()>)
      requires Valid()
      modifies Repr
      ensures Valid() && fresh(Repr - old(Repr))
      ensures match Deserialized(old(Contents()), text)
              case Loaded(t) => r == Done(()) && Contents() == t
              case ParseError(t) => r == Missing && Contents() == t
              case NullFault => r == Fault
    {
      var lines := Split(text, LF);
      ghost var goal := Deserialized(Contents(), text);
      assert lines[0..] == lines;
      var key: Text, val: Text, multiline := [], [], false;
      var i := 0;
      while i < |lines|
        invariant Valid() && fresh(Repr - old(Repr)) && 0 <= i <= |lines|
        invariant Load(Contents(), lines[i..], key, val, multiline) == goal
        decreases |lines| - i
      {
        var line := lines[i];
        LoadOn(Contents(), lines, i, key, val, multiline);
        i := i + 1;
        if line == [] {
          continue;
        }
        if key == [] {
          var m := MatchLine(line);
          if m == None {
            return Missing;
          }
          key, val := m.value.0, m.value.1;
        } else {
          val := val + line;
        }
        if EndsWith(val, BACKSLASH) {
          multiline := true;
          val := val[|val| - 1 := LF];
        } else {
          if multiline {
            val := val + [LF];
            multiline := false;
          }
          var status := Set(key, val);
          if status == Fault {
            return Fault;
          }
          key, val := [], [];
        }
      }
      assert lines[i..] == [];
      r := if key == [] then Done(()) else Missing;
    }

    /** hash_from_list. */
    method FromList(list: List) returns (r: Outcome<()>)
      requires Valid() && list.Chain() && list !in Repr && forall i :: 0 <= i < |list.spine| ==> list.spine[i] !in Repr
      modifies Repr
      ensures Valid() && fresh(Repr - old(Repr))
      ensures |list.spine| % 2 != 0 ==> r == Missing && Contents() == old(Contents())
      ensures |list.spine| % 2 == 0 ==>
                match SetAll(old(Contents()), list.View().values)
                case Some(t) => r == Done(()) && Contents() == t
                case None => r == Fault
    {
      if list.count % 2 != 0 {
        return Missing;
      }
      ghost var values := list.View().values;
      var cur := list.head;
      ghost var i, n := 0, |list.spine| / 2;
      while cur != null
        invariant Valid() && fresh(Repr - old(Repr))
        invariant 0 <= n && 0 <= i == |list.spine| - 2 * n && cur == if i < |list.spine| then list.spine[i] else null
        invariant SetAll(Contents(), values[i..]) == SetAll(old(Contents()), values)
        decreases n
      {
        var key := cur.value;
        cur := cur.next;
        assert values[i..][0] == key && values[i..][1] == cur.value && values[i..][2..] == values[i + 2..];
        var status := Set(key, cur.value);
        if status == Fault {
          return Fault;
        }
        cur := cur.next;
        i, n := i + 2, n - 1;
      }
      assert values[i..] == [];
      r := Done(());
    }
  }

  /** The lines of one bucket. */
  method WritePairs(dest: Text, b: Bucket) returns (text: Text)
    ensures text == dest + Written(b)
  {
    text := dest;
    for j := 0 to |b|
      invariant text == dest + Written(b[..j])
    {
      WrittenConcat(b[..j], [b[j]]);
      WrittenOne(b[j]);
      assert b[..j] + [b[j]] == b[..j + 1];
      text := text + (PairLine(b[j]) + [LF]);
    }
    assert b[..|b|] == b;
  }

  /** One line of hash_deserialize. */
  lemma LoadOn(t: Hash, lines: seq<Text>, i: nat, key: Text, val: Text, multiline: bool)
    requires i < |lines|
    ensures var line, rest := lines[i], lines[i + 1..];
            Load(t, lines[i..], key, val, multiline) ==
            if line == [] then Load(t, rest, key, val, multiline)
            else
              match if key == [] then MatchLine(line) else Some((key, val + line))
              case None => ParseError(t)
              case Some((k, v)) =>
                if EndsWith(v, BACKSLASH) then Load(t, rest, k, v[|v| - 1 := LF], true)
                else
                  match TableRuns.Set(t, k, if multiline then v + [LF] else v)
                  case None => NullFault
                  case Some(t') => Load(t', rest, [], [], false)
  {
    assert lines[i..][0] == lines[i] && lines[i..][1..] == lines[i + 1..];
  }

  lemma {:induction false} ConcatSnoc(bs: seq<Bucket>, i: nat)
    requires i < |bs|
    ensures Concat(bs[..i + 1]) == Concat(bs[..i]) + bs[i]
  {
    if i > 0 {
      assert bs[..i + 1][1..] == bs[1..][..i] && bs[..i][1..] == bs[1..][..i - 1];
      ConcatSnoc(bs[1..], i - 1);
    } else {
      assert bs[..1][1..] == [];
    }
  }

  lemma {:induction false} WrittenConcat(b: Bucket, c: Bucket)
    ensures Written(b + c) == Written(b) + Written(c)
  {
    if b == [] {
      assert b + c == c;
    } else {
      assert (b + c)[1..] == b[1..] + c;
      WrittenConcat(b[1..], c);
    }
  }

  lemma WrittenOne(p: Pair)
    ensures Written([p]) == PairLine(p) + [LF]
  {
    assert [p][1..] == [];
  }
}
