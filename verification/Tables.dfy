/** The hash table of hash.c as buckets of key/value pairs, searched as hash.c searches them. */
module Tables {
  import opened Bytes

  type Pair = (Text, Text)
  type Bucket = seq<Pair>

  const SLOTS := 256

  /** The exclusive or of the octets of a key. */
  function Xor(key: Text): bv8 {
    if key == [] then 0 else Xor(key[..|key| - 1]) ^ (key[|key| - 1] as bv8)
  }

  function Slot(key: Text): (s: nat)
    ensures s < SLOTS
  {
    Xor(key) as nat
  }

  /** hash_function. */
  method HashFunction(key: Text) returns (slot: nat)
    ensures slot == Slot(key) && slot < SLOTS
  {
    var x: bv8 := 0;
    for i := 0 to |key|
      invariant x == Xor(key[..i])
    {
      assert key[..i + 1][..i] == key[..i];
      x := x ^ (key[i] as bv8);
    }
    assert key[..|key|] == key;
    slot := x as nat;
  }

  lemma {:induction false} XorConcat(a: Text, b: Text)
    ensures Xor(a + b) == Xor(a) ^ Xor(b)
  {
    if b == [] {
      assert a + b == a;
    } else {
      var init := b[..|b| - 1];
      assert (a + b)[..|a + b| - 1] == a + init;
      XorConcat(a, init);
    }
  }

  /** The slot of a key by its parts: nothing has slot 0, an octet is its own slot, and the slot
      of two texts together is the exclusive or of their slots. */
  lemma SlotParts(c: Byte, a: Text, b: Text)
    ensures Slot([]) == 0
    ensures Slot([c]) == c as int
    ensures Slot(a + b) == ((Slot(a) as bv8) ^ (Slot(b) as bv8)) as nat
  {
    OneOctet(c);
    XorConcat(a, b);
    BackFromSlot(Xor(a));
    BackFromSlot(Xor(b));
  }

  lemma OneOctet(c: Byte)
    ensures Xor([c]) == c as bv8 && (c as bv8) as nat == c as int
  {
    assert [c][..0] == [];
    OctetKept(c as int);
    FromNothing(c as bv8);
  }

  /** The bits of a number, counted up from those of zero. */
  lemma {:induction false} OctetOf(n: nat) returns (x: bv8)
    requires n < 256
    ensures x as int == n
  {
    if n == 0 {
      x := 0;
    } else {
      var y := OctetOf(n - 1);
      NotLastOctet(y);
      NextOctet(y);
      x := y + 1;
    }
  }

  lemma NotLastOctet(x: bv8)
    requires x as int < 255
    ensures x != 255
  {
  }

  lemma NextOctet(x: bv8)
    requires x != 255
    ensures (x + 1) as int == x as int + 1
  {
  }

  lemma BitsOf(n: int, x: bv8)
    requires 0 <= n < 256 && x as int == n
    ensures n as bv8 == x
  {
  }

  lemma OctetKept(n: nat)
    requires n < 256
    ensures (n as bv8) as int == n
  {
    var x := OctetOf(n);
    BitsOf(n, x);
  }

  lemma FromNothing(x: bv8)
    ensures 0 ^ x == x
  {
  }

  lemma BackFromSlot(x: bv8)
    ensures (x as nat) as bv8 == x
  {
  }

  /** The first pair with this key, and the first pair with this value; the length if there is none. */
  function KeyIndex(b: Bucket, k: Text): (j: nat)
    ensures j <= |b| && (j < |b| ==> b[j].0 == k)
    ensures forall i :: 0 <= i < j ==> b[i].0 != k
  {
    if b == [] || b[0].0 == k then 0 else 1 + KeyIndex(b[1..], k)
  }

  function ValueIndex(b: Bucket, v: Text): (j: nat)
    ensures j <= |b| && (j < |b| ==> b[j].1 == v)
    ensures forall i :: 0 <= i < j ==> b[i].1 != v
  {
    if b == [] || b[0].1 == v then 0 else 1 + ValueIndex(b[1..], v)
  }

  /** The search of hash.c visits value nodes as well as key nodes: it stops at a value that
      equals the key and stands before it. */
  predicate Shadowed(b: Bucket, k: Text) {
    ValueIndex(b, k) < KeyIndex(b, k)
  }

  /** The node at which the search stops: a key, a value, or none. */
  datatype Hit = AtKey(j: nat) | AtValue(j: nat) | NoHit

  function Search(b: Bucket, k: Text): Hit {
    if Shadowed(b, k) then AtValue(ValueIndex(b, k))
    else if KeyIndex(b, k) < |b| then AtKey(KeyIndex(b, k))
    else NoHit
  }

  /** Missing: the function returns -1. Fault: the node after the last one is NULL, and hash.c
      dereferences it. */
  datatype Outcome<+T> = Done(value: T) | Missing | Fault

  /** The node after a hit, which hash.c takes for the value of the key. */
  function Following(b: Bucket, hit: Hit): Outcome<Text>
    requires hit.AtKey? || hit.AtValue? ==> hit.j < |b|
  {
    match hit
    case AtKey(j) => Done(b[j].1)
    case AtValue(j) => if j + 1 < |b| then Done(b[j + 1].0) else Fault
    case NoHit => Missing
  }

  /** hash_set writes the node after the one it found. */
  function SetHit(b: Bucket, hit: Hit, v: Text): Outcome<Bucket>
    requires hit != NoHit && hit.j < |b|
  {
    match hit
    case AtKey(j) => Done(b[j := (b[j].0, v)])
    case AtValue(j) => if j + 1 < |b| then Done(b[j + 1 := (v, b[j + 1].1)]) else Fault
  }

  function BucketSet(b: Bucket, k: Text, v: Text): Outcome<Bucket> {
    var hit := Search(b, k);
    if hit == NoHit then Done(b + [(k, v)]) else SetHit(b, hit, v)
  }

  /** hash_delete takes out the node it found and the node after it. */
  function DeleteHit(b: Bucket, hit: Hit): Outcome<Bucket>
    requires hit != NoHit && hit.j < |b|
  {
    match hit
    case AtKey(j) => Done(b[..j] + b[j + 1..])
    case AtValue(j) => if j + 1 < |b| then Done(b[..j] + [(b[j].0, b[j + 1].1)] + b[j + 2..]) else Fault
  }

  function BucketDelete(b: Bucket, k: Text): Outcome<Bucket> {
    var hit := Search(b, k);
    if hit == NoHit then Missing else DeleteHit(b, hit)
  }

  /** The value that belongs to a key. */
  function Lookup(b: Bucket, k: Text): Option<Text> {
    var j := KeyIndex(b, k);
    if j < |b| then Some(b[j].1) else None
  }

  predicate Distinct(b: Bucket) {
    forall i, j :: 0 <= i < j < |b| ==> b[i].0 != b[j].0
  }

  lemma LookupAt(b: Bucket, j: nat)
    requires Distinct(b) && j < |b|
    ensures KeyIndex(b, b[j].0) == j && Lookup(b, b[j].0) == Some(b[j].1)
  {
  }

  /** hash_set behaves as a map update of the bucket. */
  ghost predicate SetsAsMap(b: Bucket, k: Text, v: Text) {
    match BucketSet(b, k, v)
    case Done(b') => forall q :: Lookup(b', q) == if q == k then Some(v) else Lookup(b, q)
    case _ => false
  }

  ghost predicate DeletesAsMap(b: Bucket, k: Text) {
    match BucketDelete(b, k)
    case Done(b') => Lookup(b, k).Some? && forall q :: Lookup(b', q) == if q == k then None else Lookup(b, q)
    case Missing => Lookup(b, k) == None
    case Fault => false
  }

  /** The search is not led astray, or writes what is there already. */
  predicate HarmlessSet(b: Bucket, k: Text, v: Text) {
    !Shadowed(b, k) || (Following(b, Search(b, k)) == Done(v) && Lookup(b, k) == Some(v))
  }

  /** The search is not led astray, or the key that stands after the value found is the one
      meant and has itself for its value. */
  predicate HarmlessDelete(b: Bucket, k: Text) {
    !Shadowed(b, k) || (Following(b, Search(b, k)) == Done(k) && Lookup(b, k) == Some(k))
  }

  lemma UnshadowedSet(b: Bucket, k: Text, v: Text)
    requires Distinct(b) && !Shadowed(b, k)
    ensures SetsAsMap(b, k, v) && Distinct(BucketSet(b, k, v).value)
  {
    var b' := BucketSet(b, k, v).value;
    var j := KeyIndex(b, k);
    forall q
      ensures Lookup(b', q) == if q == k then Some(v) else Lookup(b, q)
    {
      if j < |b| {
        assert forall i :: 0 <= i < |b| ==> b'[i].0 == b[i].0;
        SameKeys(b, b', q);
      } else if KeyIndex(b, q) < |b| {
        assert b'[KeyIndex(b, q)].0 == q;
        LookupAt(b', KeyIndex(b, q));
      } else if q == k {
        LookupAt(b', |b|);
      } else {
        assert forall i :: 0 <= i < |b| ==> b'[i] == b[i] && b[i].0 != q;
      }
    }
  }

  lemma SameKeys(b: Bucket, b': Bucket, q: Text)
    requires |b| == |b'| && forall i :: 0 <= i < |b| ==> b'[i].0 == b[i].0
    ensures KeyIndex(b', q) == KeyIndex(b, q)
  {
  }

  /** A shadowed hash_set overwrites a key, unless it writes what is there already. */
  lemma ShadowedSet(b: Bucket, k: Text, v: Text)
    requires Distinct(b) && Shadowed(b, k)
    ensures SetsAsMap(b, k, v) <==> Following(b, Search(b, k)) == Done(v) && Lookup(b, k) == Some(v)
  {
    var j := ValueIndex(b, k) + 1;
    if j < |b| {
      var b' := BucketSet(b, k, v).value;
      var u := b[j].0;
      LookupAt(b, j);
      if u == v {
        assert b' == b;
      } else {
        assert forall i :: 0 <= i < |b| ==> b'[i].0 != u;
        assert Lookup(b', u) == None;
        assert Lookup(b, u).Some?;
      }
    }
  }

  /** hash_set is a map update exactly when the key is not shadowed, or nothing changes. */
  lemma SetExact(b: Bucket, k: Text, v: Text)
    requires Distinct(b)
    ensures SetsAsMap(b, k, v) <==> HarmlessSet(b, k, v)
  {
    if Shadowed(b, k) {
      ShadowedSet(b, k, v);
    } else {
      UnshadowedSet(b, k, v);
    }
  }

  lemma RemovedLookup(b: Bucket, j: nat, q: Text)
    requires Distinct(b) && j < |b|
    ensures var b' := b[..j] + b[j + 1..];
            Distinct(b') && Lookup(b', q) == if q == b[j].0 then None else Lookup(b, q)
  {
    var b' := b[..j] + b[j + 1..];
    assert forall i :: 0 <= i < |b'| ==> b'[i] == b[if i < j then i else i + 1];
    var i := KeyIndex(b, q);
    if i < |b| && i != j {
      LookupAt(b', if i < j then i else i - 1);
    } else if i == j {
      assert forall m :: 0 <= m < |b'| ==> b'[m].0 != q;
    }
  }

  lemma UnshadowedDelete(b: Bucket, k: Text)
    requires Distinct(b) && !Shadowed(b, k)
    ensures DeletesAsMap(b, k) && (BucketDelete(b, k).Done? ==> Distinct(BucketDelete(b, k).value))
  {
    var j := KeyIndex(b, k);
    if j < |b| {
      forall q
        ensures Distinct(b[..j] + b[j + 1..])
        ensures Lookup(b[..j] + b[j + 1..], q) == if q == k then None else Lookup(b, q)
      {
        RemovedLookup(b, j, q);
      }
      RemovedLookup(b, j, k);
    }
  }

  /** Taking out a value and the key after it. */
  lemma CutAcross(b: Bucket, j: nat, q: Text)
    requires Distinct(b) && j + 1 < |b|
    ensures var b' := b[..j] + [(b[j].0, b[j + 1].1)] + b[j + 2..];
            Lookup(b', q) == if q == b[j + 1].0 then None else if q == b[j].0 then Some(b[j + 1].1) else Lookup(b, q)
  {
    var c := b[j := (b[j].0, b[j + 1].1)];
    assert b[..j] + [(b[j].0, b[j + 1].1)] + b[j + 2..] == c[..j + 1] + c[j + 2..];
    assert forall i :: 0 <= i < |b| ==> c[i].0 == b[i].0;
    LookupAt(b, j);
    LookupAt(c, j);
    RemovedLookup(c, j + 1, q);
    SameKeys(b, c, q);
  }

  /** A shadowed hash_delete removes the key after the value it found. */
  lemma ShadowedDelete(b: Bucket, k: Text)
    requires Distinct(b) && Shadowed(b, k)
    ensures DeletesAsMap(b, k) <==> Following(b, Search(b, k)) == Done(k) && Lookup(b, k) == Some(k)
  {
    var j := ValueIndex(b, k);
    if j + 1 < |b| {
      var b' := BucketDelete(b, k).value;
      LookupAt(b, j);
      LookupAt(b, j + 1);
      forall q
        ensures Lookup(b', q) == if q == b[j + 1].0 then None else if q == b[j].0 then Some(b[j + 1].1) else Lookup(b, q)
      {
        CutAcross(b, j, q);
      }
      if b[j + 1].0 == k {
        assert Lookup(b, b[j].0) == Some(k);
      } else {
        assert Lookup(b', b[j + 1].0) == None && Lookup(b, b[j + 1].0).Some?;
      }
    }
  }

  /** hash_delete removes from a map under the same kind of condition. */
  lemma DeleteExact(b: Bucket, k: Text)
    requires Distinct(b)
    ensures DeletesAsMap(b, k) <==> HarmlessDelete(b, k)
  {
    if Shadowed(b, k) {
      ShadowedDelete(b, k);
    } else {
      UnshadowedDelete(b, k);
    }
  }
}
