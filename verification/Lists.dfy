/** The doubly linked lists of list.c, with their nodes on the heap. */
module Lists {
  import opened Bytes
  import opened Sorting
  import opened Shapes

  /** A list node. `freed` records that list_entry_destroy has released it. */
  class Entry {
    var value: Text
    var next: Entry?
    var prev: Entry?
    ghost var freed: bool

    constructor (value: Text)
      ensures this.value == value && next == null && prev == null && !freed
    {
      this.value := value;
      next, prev := null, null;
      freed := false;
    }

    /** list_entry_destroy: a node may be released once. */
    ghost method Release()
      requires !freed
      modifies this`freed
      ensures freed
    {
      freed := true;
    }
  }

  class List {
    var count: nat
    var head: Entry?
    var tail: Entry?
    ghost var spine: seq<Entry>

    /** The forward chain from head is the spine: `count` distinct live nodes. A back link is
        the predecessor or NULL, and the tail pointer is the last node or NULL. */
    ghost predicate Chain()
      reads this, spine
    {
      && count == |spine|
      && Forward()
      && (spine == [] ==> tail == null)
      && (spine != [] ==> spine[0].prev == null && (tail == null || tail == spine[|spine| - 1]))
      && (forall i {:trigger spine[i].prev} :: 0 < i < |spine| ==> spine[i].prev == null || spine[i].prev == spine[i - 1])
    }

    /** Following `next` from head visits exactly the spine, whose nodes are distinct and live. */
    ghost predicate Forward()
      reads this, spine
    {
      && (forall i, j :: 0 <= i < j < |spine| ==> spine[i] != spine[j])
      && (forall i {:trigger spine[i].freed} :: 0 <= i < |spine| ==> !spine[i].freed)
      && (if spine == [] then head == null else head == spine[0] && spine[|spine| - 1].next == null)
      && (forall i {:trigger spine[i].next} :: 0 <= i < |spine| - 1 ==> spine[i].next == spine[i + 1])
    }

    /** These nodes are what a caller meets on the way from head to NULL, and none is released. */
    ghost predicate Walk(nodes: seq<Entry>)
      reads this, nodes
    {
      && head == (if nodes == [] then null else nodes[0])
      && (forall i {:trigger nodes[i].freed} :: 0 <= i < |nodes| ==> !nodes[i].freed)
      && (forall i {:trigger nodes[i].next} :: 0 <= i < |nodes| ==>
            nodes[i].next == if i + 1 < |nodes| then nodes[i + 1] else null)
    }

    /** Following `next` from head leads through the spine to node `k`, which is released. */
    ghost predicate Dangles(k: int)
      requires 0 <= k < |spine|
      reads this, spine
    {
      head == spine[0] && spine[k].freed && forall i {:trigger spine[i].next} :: 0 <= i < k ==> spine[i].next == spine[i + 1]
    }

    ghost predicate Linked(i: int)
      requires 0 <= i < |spine|
      reads this, spine
    {
      i == 0 || spine[i].prev == spine[i - 1]
    }

    ghost function View(): (s: Shape)
      reads this, spine
    {
      Shape(seq(|spine|, i requires 0 <= i < |spine| reads this, spine => spine[i].value),
            seq(|spine|, i requires 0 <= i < |spine| reads this, spine => Linked(i)),
            Tailed())
    }

    ghost predicate Tailed()
      reads this
    {
      spine == [] || tail != null
    }

    /** The list looks like `s`, said node by node. */
    ghost predicate Shows(s: Shape)
      reads this, spine
    {
      && |s.values| == |s.back| == |spine|
      && s.tailed == Tailed()
      && (forall i {:trigger s.values[i]} {:trigger spine[i].value} :: 0 <= i < |spine| ==> s.values[i] == spine[i].value)
      && (forall i {:trigger s.back[i]} {:trigger spine[i].prev} :: 0 <= i < |spine| ==> s.back[i] == Linked(i))
    }

    /** The lists share no node. */
    ghost predicate Apart(src: List)
      reads this, src
    {
      forall i {:trigger src.spine[i]} :: 0 <= i < |src.spine| ==> src.spine[i] !in spine
    }

    lemma {:induction false} SameWay(a: seq<Entry>, b: seq<Entry>, i: nat)
      requires Walk(a) && Walk(b) && i < |a|
      ensures i < |b| && a[i] == b[i]
    {
      if i > 0 {
        SameWay(a, b, i - 1);
        assert a[i - 1].next == a[i];
      }
    }

    /** There is at most one way from head to NULL. */
    lemma WalkUnique(a: seq<Entry>, b: seq<Entry>)
      requires Walk(a) && Walk(b)
      ensures |a| == |b|
    {
      if a != [] {
        SameWay(a, b, |a| - 1);
      }
      if b != [] {
        SameWay(b, a, |b| - 1);
      }
    }

    /** A list that counts more or fewer nodes than are on its chain. */
    lemma Miscounts()
      requires Forward() && count != |spine|
      ensures forall nodes: seq<Entry> :: Walk(nodes) ==> |nodes| != count
    {
      forall nodes: seq<Entry> | Walk(nodes)
        ensures |nodes| == |spine|
      {
        WalkUnique(nodes, spine);
      }
    }

    lemma {:induction false} WayTo(nodes: seq<Entry>, k: nat, i: nat)
      requires k < |spine| && Dangles(k) && Walk(nodes) && i <= k
      ensures i < |nodes| && nodes[i] == spine[i]
    {
      if i > 0 {
        WayTo(nodes, k, i - 1);
        assert spine[i - 1].next == spine[i];
      }
    }

    /** A list whose chain leads to a released node. */
    lemma LeadsAstray(k: nat)
      requires k < |spine| && Dangles(k)
      ensures forall nodes: seq<Entry> :: !Walk(nodes)
    {
      forall nodes: seq<Entry>
        ensures !Walk(nodes)
      {
        if Walk(nodes) {
          WayTo(nodes, k, k);
        }
      }
    }

    lemma ViewIs(s: Shape)
      requires Shows(s)
      ensures View() == s
    {
    }

    lemma ViewShows()
      ensures Shows(View())
    {
    }

    constructor ()
      ensures Chain() && spine == [] && View() == EMPTY
    {
      count, head, tail, spine := 0, null, null, [];
      new;
      ViewIs(EMPTY);
    }

    twostate lemma AppendedView(was: seq<Entry>, new n: Entry)
      requires was == old(spine) && spine == was + [n]
      requires old(Chain()) && Chain() && old(Tailed()) && Tailed() && Linked(|was|)
      requires forall e {:trigger e.value} {:trigger e.prev} :: e in was ==> e.value == old(e.value) && e.prev == old(e.prev)
      ensures View() == Pushed(old(View()), n.value)
    {
      ViewIs(Pushed(old(View()), n.value));
    }

    /** list_entry_append. On a list that has lost its tail pointer the node is unreachable. */
    method Append(n: Entry)
      requires Chain() && n !in spine && !n.freed
      modifies this, tail, n
      ensures count == old(count) + 1 && tail == n && n.value == old(n.value) && !n.freed && n.next == null
      ensures old(Tailed()) ==> Chain() && spine == old(spine) + [n] && View() == Pushed(old(View()), n.value)
      ensures !old(Tailed()) ==> spine == old(spine) && Forward() && n.next == null && n.prev == null
    {
      ghost var lost := !Tailed();
      n.next := null;
      n.prev := tail;
      if tail != null {
        tail.next := n;
      }
      if head == null {
        head := n;
      }
      tail := n;
      count := count + 1;
      if !lost {
        spine := spine + [n];
        AppendedView(old(spine), n);
      }
    }

    /** list_push. */
    method Push(v: Text)
      requires Chain()
      modifies this, tail
      ensures count == old(count) + 1 && fresh(tail)
      ensures old(Tailed()) ==> Chain() && spine == old(spine) + [tail] && View() == Pushed(old(View()), v)
      ensures tail.value == v && !tail.freed && tail.next == null
      ensures !old(Tailed()) ==> spine == old(spine) && Forward() && tail.prev == null
    {
      var n := new Entry(v);
      Append(n);
    }

    twostate lemma UnshiftedView(was: seq<Entry>, new n: Entry)
      requires was == old(spine) && spine == [n] + was
      requires old(Chain()) && Chain() && Tailed() == (was == [] || old(Tailed()))
      requires n !in was && (was != [] ==> !Linked(1))
      requires forall e {:trigger e.value} {:trigger e.prev} :: e in was ==> e.value == old(e.value) && e.prev == old(e.prev)
      ensures View() == Unshifted(old(View()), n.value)
    {
      ViewIs(Unshifted(old(View()), n.value));
    }

    /** list_unshift, which forgets the back link of the old first node. */
    method Unshift(v: Text)
      requires Chain()
      modifies this
      ensures Chain() && fresh(head) && spine == [head] + old(spine) && View() == Unshifted(old(View()), v)
    {
      var n := new Entry(v);
      if count != 0 {
        n.next := head;
      } else {
        tail := n;
      }
      head := n;
      count := count + 1;
      spine := [n] + spine;
      UnshiftedView(old(spine), n);
    }

    /** Pointer by pointer, the list is the old one without its node `k`. */
    twostate predicate Unlinked(was: seq<Entry>, new k: nat)
      requires k < |was|
      reads this, was
    {
      && was == old(spine) && spine == Drop(was, k)
      && count == old(count) - 1
      && head == (if k == 0 then old(was[k].next) else old(head))
      && tail == (if old(tail) == was[k] then old(was[k].prev) else old(tail))
      && (forall i {:trigger was[i].next} :: 0 <= i < |was| && i != k - 1 ==> was[i].next == old(was[i].next))
      && (k > 0 ==> was[k - 1].next == old(was[k].next))
      && (forall i {:trigger was[i].prev} :: 0 <= i < |was| && i != k + 1 ==> was[i].prev == old(was[i].prev))
      && (k + 1 < |was| ==> was[k + 1].prev == old(was[k].prev))
      && (forall i {:trigger was[i]} :: 0 <= i < |was| && i != k ==>
            was[i].value == old(was[i].value) && was[i].freed == old(was[i].freed))
    }

    twostate lemma UnlinkedIsChain(was: seq<Entry>, new k: nat)
      requires k < |was| && Unlinked(was, k) && old(Chain()) && old(Linked(k))
      ensures Chain()
    {
      assert forall i {:trigger spine[i]} :: 0 <= i < |spine| ==> spine[i] == was[if i < k then i else i + 1];
    }

    twostate lemma UnlinkedView(was: seq<Entry>, new k: nat)
      requires k < |was| && Unlinked(was, k) && old(Chain()) && old(Linked(k)) && Chain()
      ensures View() == Deleted(old(View()), k)
    {
      var s := Deleted(old(View()), k);
      forall i | 0 <= i < |spine|
        ensures s.values[i] == spine[i].value && s.back[i] == Linked(i)
      {
        assert spine[i] == was[if i < k then i else i + 1];
        if i > 0 {
          assert spine[i - 1] == was[if i - 1 < k then i - 1 else i];
        }
      }
      ViewIs(s);
    }

    /** Node `k` is released where it stands, and only its successor learns of it: everything else
        is as it was. */
    twostate predicate LeftInChain(new k: int)
      requires 0 <= k < |spine|
      reads this, spine
    {
      && spine == old(spine) && head == old(head)
      && (forall i {:trigger spine[i].freed} :: 0 <= i < |spine| ==> spine[i].freed == (i == k))
      && (forall i {:trigger spine[i].next} :: 0 <= i < |spine| ==> spine[i].next == old(spine[i].next))
      && (forall i {:trigger spine[i].value} :: 0 <= i < |spine| ==> spine[i].value == old(spine[i].value))
      && (forall i {:trigger spine[i].prev} :: 0 <= i < |spine| ==>
            spine[i].prev == if i - 1 == k then null else old(spine[i].prev))
    }

    /** list_entry_delete of the node at position `k`. A node without its back link cannot be
        taken out: its predecessor goes on pointing at the released node. */
    method EntryDelete(ent: Entry, ghost k: nat)
      requires Chain() && k < |spine| && spine[k] == ent
      modifies this, spine
      ensures count == old(count) - 1 && ent.freed
      ensures tail == if old(tail) == ent then old(ent.prev) else old(tail)
      ensures old(Linked(k)) ==> Chain() && spine == Drop(old(spine), k) && View() == Deleted(old(View()), k)
      ensures !old(Linked(k)) ==> spine == old(spine) && Dangles(k) && LeftInChain(k)
    {
      ghost var linked := Linked(k);
      if ent.next != null {
        ent.next.prev := ent.prev;
      }
      if ent.prev != null {
        ent.prev.next := ent.next;
      }
      if head == ent {
        head := ent.next;
      }
      if tail == ent {
        tail := ent.prev;
      }
      count := count - 1;
      ent.Release();
      if linked {
        spine := Drop(spine, k);
        UnlinkedIsChain(old(spine), k);
        UnlinkedView(old(spine), k);
      }
    }

    /** list_entry_delete of a node with its back link. */
    method DeleteLinked(ent: Entry, ghost k: nat)
      requires Chain() && k < |spine| && spine[k] == ent && Linked(k)
      modifies this, spine
      ensures Chain() && ent.freed && spine == Drop(old(spine), k) && View() == Deleted(old(View()), k)
    {
      EntryDelete(ent, k);
    }

    /** list_truncate releases every node once. */
    method Truncate()
      requires Chain()
      modifies this, spine
      ensures Chain() && spine == [] && View() == EMPTY
      ensures forall e :: e in old(spine) ==> e.freed
    {
      var x := head;
      ghost var i, nodes := 0, spine;
      while x != null
        invariant 0 <= i <= |nodes| && x == (if i < |nodes| then nodes[i] else null)
        invariant forall j {:trigger nodes[j].freed} :: 0 <= j < |nodes| ==> nodes[j].freed == (j < i)
        invariant forall j {:trigger nodes[j].next} :: 0 <= j < |nodes| ==> nodes[j].next == old(nodes[j].next)
        decreases |nodes| - i
      {
        var y := x.next;
        x.Release();
        x := y;
        i := i + 1;
      }
      head, tail, count, spine := null, null, 0, [];
      ViewIs(EMPTY);
    }

    /** list_entry_get. */
    method EntryGet(offset: nat) returns (r: Option<Entry>)
      requires Chain()
      ensures r == if offset < |spine| then Some(spine[offset]) else None
    {
      if offset >= count {
        return None;
      }
      var cur, n := head, 0;
      while cur != null
        invariant 0 <= n <= offset && cur == spine[n]
        decreases offset - n
      {
        if n == offset {
          return Some(cur);
        }
        n := n + 1;
        cur := cur.next;
      }
      r := None;
    }

    /** list_get. */
    method Get(offset: nat) returns (r: Option<Text>)
      requires Chain()
      ensures r == if offset < |spine| then Some(View().values[offset]) else None
    {
      var ent := EntryGet(offset);
      r := if ent.Some? then Some(ent.value.value) else None;
    }

    /** list_find. */
    method Find(text: Text) returns (found: bool)
      requires Chain()
      ensures found <==> text in View().values
    {
      var cur := head;
      ghost var i := 0;
      while cur != null
        invariant 0 <= i <= |spine| && cur == (if i < |spine| then spine[i] else null)
        invariant forall j :: 0 <= j < i ==> View().values[j] != text
        decreases |spine| - i
      {
        if cur.value == text {
          assert View().values[i] == text;
          return true;
        }
        cur := cur.next;
        i := i + 1;
      }
      found := false;
    }

    /** list_pop. The last node cannot be taken out when it has no back link. */
    method Pop() returns (r: Option<Text>)
      requires Chain()
      modifies this, spine
      ensures old(tail) == null ==> r == None && Chain() && spine == old(spine) && View() == old(View())
      ensures old(tail) != null ==> r == Some(old(View().values[|spine| - 1])) && count == old(count) - 1
      ensures old(tail) != null && old(Linked(|spine| - 1)) ==>
                Chain() && spine == old(spine[..|spine| - 1]) && View() == Deleted(old(View()), old(|spine|) - 1)
      ensures old(tail) != null && !old(Linked(|spine| - 1)) ==>
                spine == old(spine) && tail == null && Dangles(|spine| - 1) && LeftInChain(|spine| - 1)
    {
      if tail == null {
        return None;
      }
      r := Some(tail.value);
      EntryDelete(tail, |spine| - 1);
    }

    /** list_shift, which needs neither the tail pointer nor any back link. */
    method Shift() returns (r: Option<Text>)
      requires Chain()
      modifies this, spine
      ensures old(spine) == [] ==> r == None && Chain() && spine == [] && View() == old(View())
      ensures old(spine) != [] ==> r == Some(old(View().values[0])) && old(spine[0]).freed
      ensures old(spine) != [] ==> Chain() && spine == old(spine[1..]) && View() == Deleted(old(View()), 0)
    {
      if count == 0 {
        return None;
      }
      DropFirst(spine);
      ghost var s := View();
      var ent := EntryGet(0);
      assert View() == s;
      r := Some(ent.value.value);
      DeleteLinked(ent.value, 0);
      assert View() == Deleted(s, 0);
    }

    /** list_delete: an offset equal to the count is accepted and deletes nothing. */
    method Delete(offset: nat) returns (r: Status)
      requires Chain()
      modifies this, spine
      ensures r == if offset > old(count) then Failure else Success
      ensures offset >= old(count) ==> Chain() && spine == old(spine) && View() == old(View())
      ensures offset < old(count) && old(Linked(offset)) ==>
                Chain() && spine == Drop(old(spine), offset) && View() == Deleted(old(View()), offset)
      ensures offset < old(count) && !old(Linked(offset)) ==>
                count == old(count) - 1 && spine == old(spine) && Dangles(offset) && LeftInChain(offset)
    {
      if offset > count {
        return Failure;
      }
      var ent, n := head, 0;
      while ent != null
        invariant 0 <= n <= |spine| && n <= offset && ent == (if n < |spine| then spine[n] else null)
        decreases |spine| - n
      {
        if n == offset {
          EntryDelete(ent, n);
          break;
        }
        n := n + 1;
        ent := ent.next;
      }
      r := Success;
    }

    /** The loop of list_copy. */
    method PushCopies(src: List)
      requires Chain() && src.Chain() && spine == []
      modifies this
      ensures Chain() && View() == ShapeOf(old(src.View()).values)
      ensures forall i :: 0 <= i < |spine| ==> fresh(spine[i])
    {
      var cur := src.head;
      ghost var nodes, i, v := src.spine, 0, src.View().values;
      ViewIs(ShapeOf(v[..i]));
      while cur != null
        invariant unchanged(nodes) && 0 <= i <= |v| == |nodes|
        invariant cur == (if i < |nodes| then nodes[i] else null)
        invariant Chain() && View() == ShapeOf(v[..i])
        invariant forall i :: 0 <= i < |spine| ==> fresh(spine[i])
        decreases |v| - i
      {
        assert v[i] == cur.value && v[..i + 1] == v[..i] + [v[i]];
        PushedShapeOf(v[..i], v[i]);
        Push(cur.value);
        cur := cur.next;
        i := i + 1;
      }
      assert v[..i] == v;
    }

    /** list_copy: the nodes are new, the values the same. A list copied onto itself is lost. */
    method Copy(src: List)
      requires Chain() && src.Chain() && (src != this ==> Apart(src))
      modifies this, spine
      ensures Chain() && View() == if src == this then EMPTY else ShapeOf(old(src.View()).values)
      ensures forall e :: e in old(spine) ==> e.freed
      ensures forall i :: 0 <= i < |spine| ==> fresh(spine[i])
    {
      Truncate();
      if src != this {
        src.Untouched();
      }
      PushCopies(src);
    }

    /** Live distinct nodes chained forwards, each back link the predecessor or NULL. */
    static ghost predicate Segment(nodes: seq<Entry>)
      reads nodes
    {
      && (forall i, j :: 0 <= i < j < |nodes| ==> nodes[i] != nodes[j])
      && (forall i {:trigger nodes[i].freed} :: 0 <= i < |nodes| ==> !nodes[i].freed)
      && (forall i {:trigger nodes[i].next} :: 0 <= i < |nodes| - 1 ==> nodes[i].next == nodes[i + 1])
      && (nodes != [] ==> nodes[0].prev == null)
      && (forall i {:trigger nodes[i].prev} :: 0 < i < |nodes| ==> nodes[i].prev == null || nodes[i].prev == nodes[i - 1])
    }

    /** The nodes hold these values and these back links. */
    static ghost predicate NodesHold(nodes: seq<Entry>, values: seq<Text>, back: seq<bool>)
      reads nodes
    {
      && |values| == |back| == |nodes|
      && (forall i {:trigger values[i]} {:trigger nodes[i].value} :: 0 <= i < |nodes| ==> values[i] == nodes[i].value)
      && (forall i {:trigger back[i]} {:trigger nodes[i].prev} :: 0 <= i < |nodes| ==>
            back[i] == (i == 0 || nodes[i].prev == nodes[i - 1]))
    }

    lemma SplicedView(d: seq<Entry>, s: seq<Entry>, ds: Shape, ss: Shape)
      requires spine == d + s && Segment(d) && Segment(s)
      requires NodesHold(d, ds.values, ds.back) && NodesHold(s, ss.values, ss.back)
      requires Tailed() == if s == [] then d == [] else ss.tailed
      ensures View() == Merged(ds, ss)
    {
      var m := Merged(ds, ss);
      forall i | 0 <= i < |spine|
        ensures m.values[i] == spine[i].value && m.back[i] == Linked(i)
      {
        if i >= |d| {
          assert spine[i] == s[i - |d|];
        }
      }
      ViewIs(m);
    }

    lemma SplicedIsChain(d: seq<Entry>, s: seq<Entry>)
      requires spine == d + s && count == |spine| && Segment(d) && Segment(s)
      requires forall i {:trigger s[i]} :: 0 <= i < |s| ==> s[i] !in d
      requires d != [] ==> head == d[0] && d[|d| - 1].next == if s == [] then null else s[0]
      requires s != [] ==> s[|s| - 1].next == null
      requires d == [] ==> head == if s == [] then null else s[0]
      requires tail == null || (s != [] && tail == s[|s| - 1])
      ensures Chain()
    {
      assert forall i {:trigger spine[i]} :: 0 <= i < |spine| ==> spine[i] == if i < |d| then d[i] else s[i - |d|];
    }

    twostate lemma Spliced(new d: seq<Entry>, s: seq<Entry>, new ss: Shape)
      requires d == old(spine) && spine == d + s && count == |spine|
      requires old(Chain()) && old(Segment(s)) && old(NodesHold(s, ss.values, ss.back))
      requires forall i {:trigger s[i]} :: 0 <= i < |s| ==> s[i] !in d
      requires forall e {:trigger e.prev} {:trigger e.value} {:trigger e.freed} :: e in spine ==>
                 e.prev == old(e.prev) && e.value == old(e.value) && e.freed == old(e.freed)
      requires forall e {:trigger e.next} :: e in spine && (d != [] ==> e != d[|d| - 1]) ==> e.next == old(e.next)
      requires d != [] ==> head == d[0] && d[|d| - 1].next == if s == [] then null else s[0]
      requires s != [] ==> s[|s| - 1].next == null
      requires d == [] ==> head == if s == [] then null else s[0]
      requires tail == null || (s != [] && tail == s[|s| - 1])
      requires Tailed() == if s == [] then d == [] else ss.tailed
      ensures Chain() && View() == Merged(old(View()), ss)
    {
      SplicedIsChain(d, s);
      SplicedView(d, s, old(View()), ss);
    }

    /** list_merge moves the nodes of the source over. The first of them gets no back link, and
        an empty source takes the tail pointer of the destination away. A list merged onto
        itself is lost. */
    method Merge(src: List)
      requires Chain() && src.Chain() && (spine == [] || tail != null)
      requires src != this ==> Apart(src)
      modifies this, spine, src
      ensures src != this ==> Chain() && spine == old(spine) + old(src.spine) && View() == Merged(old(View()), old(src.View()))
      ensures src.Chain() && src.spine == [] && src.View() == EMPTY
    {
      if count == 0 {
        head := src.head;
      } else {
        tail.next := src.head;
      }
      tail := src.tail;
      count := count + src.count;
      src.count := 0;
      src.head := null;
      src.tail := null;
      ghost var d, s := spine, src.spine;
      spine, src.spine := if src == this then [] else d + s, [];
      src.ViewIs(EMPTY);
      if src != this {
        Spliced(d, s, old(src.View()));
      }
    }

    twostate lemma Moved(nodes: seq<Entry>, new s: Shape)
      requires spine == nodes && count == |spine| && s.tailed == Tailed()
      requires old(Segment(nodes)) && old(NodesHold(nodes, s.values, s.back))
      requires forall e {:trigger e.next} {:trigger e.prev} {:trigger e.value} {:trigger e.freed} :: e in nodes ==>
                 e.next == old(e.next) && e.prev == old(e.prev) && e.value == old(e.value) && e.freed == old(e.freed)
      requires if spine == [] then head == tail == null else head == spine[0] && spine[|spine| - 1].next == null
      requires tail == null || tail == spine[|spine| - 1]
      ensures Chain() && View() == s
    {
      ViewIs(s);
    }

    /** The end of list_move: an empty list takes the pointers of another. */
    method TakeNodes(src: List)
      requires Chain() && src.Chain() && spine == []
      modifies this, src
      ensures Chain() && spine == old(src.spine) && View() == old(src.View())
      ensures src.Chain() && src.spine == [] && src.View() == if src == this then old(View()) else EMPTY
    {
      ghost var nodes, s := src.spine, src.View();
      head := src.head;
      tail := src.tail;
      count := src.count;
      spine := src.spine;
      src.head := null;
      src.tail := null;
      src.count := 0;
      src.spine := [];
      if src != this {
        src.ViewIs(EMPTY);
        Moved(nodes, s);
      } else {
        ViewIs(s);
      }
    }

    /** list_move. A list moved onto itself is lost. */
    method Move(src: List)
      requires Chain() && src.Chain() && (src != this ==> Apart(src))
      modifies this, spine, src
      ensures src != this ==> Chain() && spine == old(src.spine) && View() == old(src.View())
      ensures src.Chain() && src.spine == [] && src.View() == EMPTY
      ensures forall e :: e in old(spine) ==> e.freed
    {
      Truncate();
      if src != this {
        src.Untouched();
      }
      TakeNodes(src);
    }

    twostate lemma Untouched()
      requires old(Chain()) && unchanged(this) && unchanged(spine)
      ensures Chain() && View() == old(View())
    {
    }

    lemma SeamLinks(seam: nat)
      requires Chain() && spine != [] && seam == LastSeam(View().back)
      ensures spine[seam].prev == null
      ensures forall j {:trigger spine[j].prev} :: seam < j < |spine| ==> spine[j].prev == spine[j - 1]
    {
      var back := View().back;
      assert seam == 0 || !back[seam];
      forall j | seam < j < |spine|
        ensures spine[j].prev == spine[j - 1]
      {
        assert back[j];
      }
    }

    /** From node `seam` on, every node has its two links exchanged; all else is as it was. */
    twostate predicate Turned(nodes: seq<Entry>, new seam: nat)
      requires seam <= |nodes| && (nodes != [] ==> seam < |nodes|)
      reads this, nodes
    {
      && nodes == old(spine) && spine == Reversed(nodes[seam..])
      && head == old(tail) && tail == old(head)
      && (nodes != [] ==> old(nodes[seam].prev) == null)
      && (forall j {:trigger old(nodes[j].prev)} :: seam < j < |nodes| ==> old(nodes[j].prev) == nodes[j - 1])
      && (forall j {:trigger nodes[j].next} {:trigger nodes[j].prev} :: 0 <= j < |nodes| ==>
            nodes[j].next == old(if j < seam then nodes[j].next else nodes[j].prev) &&
            nodes[j].prev == old(if j < seam then nodes[j].prev else nodes[j].next))
      && (forall j {:trigger nodes[j].freed} {:trigger nodes[j].value} :: 0 <= j < |nodes| ==>
            nodes[j].freed == old(nodes[j].freed) && nodes[j].value == old(nodes[j].value))
    }

    twostate lemma TurnedIsForward(nodes: seq<Entry>, new seam: nat)
      requires (nodes != [] ==> seam < |nodes|) && (nodes == [] ==> seam == 0)
      requires old(Chain()) && old(Tailed()) && Turned(nodes, seam)
      ensures Forward()
    {
      var n := |nodes|;
      forall i | 0 <= i < |spine|
        ensures spine[i] == nodes[n - 1 - i] && !spine[i].freed
        ensures spine[i].next == if i == |spine| - 1 then null else spine[i + 1]
      {
      }
    }

    twostate lemma TurnedIsWhole(nodes: seq<Entry>)
      requires old(Chain()) && old(Tailed()) && Turned(nodes, 0) && Forward() && count == old(count)
      ensures Chain() && View() == ShapeOf(Reversed(old(View()).values))
    {
      ghost var n, w := |nodes|, Reversed(old(View()).values);
      forall i | 0 <= i < n
        ensures spine[i].prev == (if i == 0 then null else spine[i - 1]) && spine[i].value == w[i]
      {
        var j := n - 1 - i;
        assert spine[i] == nodes[j] && (i > 0 ==> spine[i - 1] == nodes[j + 1]);
        assert nodes[j].prev == old(nodes[j].next);
        assert old(View()).values[j] == old(nodes[j].value);
      }
      WholeChain(w);
    }

    lemma WholeChain(w: seq<Text>)
      requires Forward() && count == |spine| == |w| && (if spine == [] then tail == null else tail == spine[|spine| - 1])
      requires forall i {:trigger spine[i].prev} {:trigger spine[i].value} :: 0 <= i < |spine| ==>
                 spine[i].prev == (if i == 0 then null else spine[i - 1]) && spine[i].value == w[i]
      ensures Chain() && View() == ShapeOf(w)
    {
      ViewIs(ShapeOf(w));
    }

    twostate lemma TurnedAround(nodes: seq<Entry>, new seam: nat)
      requires seam == old(LastSeam(View().back)) && (nodes == [] ==> seam == 0) && (nodes != [] ==> seam < |nodes|)
      requires old(Chain()) && old(Tailed()) && Turned(nodes, seam) && count == old(count)
      ensures Forward()
      ensures Whole(old(View())) ==> Chain() && View() == ShapeOf(Reversed(old(View()).values))
    {
      TurnedIsForward(nodes, seam);
      if Whole(old(View())) {
        TurnedIsWhole(nodes);
      }
    }

    /** The loop of list_reverse, from the last of `nodes` back to the first without a back link. */
    static method TurnLinks(first: Entry?, ghost nodes: seq<Entry>, ghost seam: nat)
      requires forall i, j :: 0 <= i < j < |nodes| ==> nodes[i] != nodes[j]
      requires if nodes == [] then first == null
               else seam < |nodes| && first == nodes[|nodes| - 1] && nodes[seam].prev == null
      requires forall j {:trigger nodes[j].prev} :: seam < j < |nodes| ==> nodes[j].prev == nodes[j - 1]
      modifies nodes
      ensures forall i {:trigger nodes[i].next} {:trigger nodes[i].prev} :: 0 <= i < |nodes| ==>
                nodes[i].next == old(if i < seam then nodes[i].next else nodes[i].prev) &&
                nodes[i].prev == old(if i < seam then nodes[i].prev else nodes[i].next)
      ensures forall i {:trigger nodes[i].freed} {:trigger nodes[i].value} :: 0 <= i < |nodes| ==>
                nodes[i].freed == old(nodes[i].freed) && nodes[i].value == old(nodes[i].value)
    {
      var ptr := first;
      ghost var j := |nodes| - 1;
      while ptr != null
        invariant if nodes == [] then ptr == null else seam - 1 <= j < |nodes| && ptr == if j >= seam then nodes[j] else null
        invariant forall i {:trigger nodes[i].freed} {:trigger nodes[i].value} :: 0 <= i < |nodes| ==>
                    nodes[i].freed == old(nodes[i].freed) && nodes[i].value == old(nodes[i].value)
        invariant forall i {:trigger nodes[i].next} {:trigger nodes[i].prev} :: 0 <= i < |nodes| ==>
                    nodes[i].next == old(if i <= j then nodes[i].next else nodes[i].prev) &&
                    nodes[i].prev == old(if i <= j then nodes[i].prev else nodes[i].next)
        decreases j + 1
      {
        var tmp := ptr.prev;
        ptr.prev := ptr.next;
        ptr.next := tmp;
        ptr := ptr.next;
        j := j - 1;
      }
    }

    /** Head and tail change places, and the loop turns the links from the old tail on. */
    method TurnAround(ghost seam: nat)
      requires Chain() && seam == LastSeam(View().back)
      modifies this, spine
      ensures count == old(count)
      ensures !old(Tailed()) ==> head == null && tail == old(head) && spine == old(spine) && unchanged(spine)
      ensures old(Tailed()) ==> Turned(old(spine), seam)
    {
      ghost var nodes := spine;
      if spine != [] {
        SeamLinks(seam);
      }
      var ptr := head;
      head := tail;
      tail := ptr;
      TurnLinks(head, if head == null then [] else nodes, if head == null then 0 else seam);
      if nodes == [] || head != null {
        spine := Reversed(nodes[seam..]);
      }
    }

    /** list_reverse gets as far as the last node without a back link: the nodes before it
        drop off the chain, although `count` still includes them. */
    method Reverse()
      requires Chain()
      modifies this, spine
      ensures count == old(count)
      ensures !old(Tailed()) ==> head == null && tail == old(head) && spine == old(spine) && unchanged(spine)
      ensures old(Tailed()) ==> Forward() && Turned(old(spine), LastSeam(old(View()).back))
      ensures Whole(old(View())) ==> Chain() && View() == ShapeOf(Reversed(old(View()).values))
    {
      ghost var nodes, seam := spine, LastSeam(View().back);
      TurnAround(seam);
      if old(Tailed()) {
        TurnedAround(nodes, seam);
      }
    }

    twostate lemma Revalued(new w: seq<Text>)
      requires old(Chain()) && spine == old(spine) && head == old(head) && tail == old(tail) && count == old(count)
      requires forall e {:trigger e.next} {:trigger e.prev} {:trigger e.freed} :: e in spine ==>
                 e.next == old(e.next) && e.prev == old(e.prev) && e.freed == old(e.freed)
      requires |w| == |spine| && forall i {:trigger spine[i].value} :: 0 <= i < |spine| ==> spine[i].value == w[i]
      ensures Chain() && View() == old(View()).(values := w)
    {
      ViewIs(old(View()).(values := w));
    }

    /** The values behind `i` steps of a pass that exchanges or does not. */
    ghost predicate Shifted(w: seq<Text>, active: bool, i: int)
      requires |w| == |spine| && 0 <= i < |w|
      reads this, spine
    {
      forall m {:trigger spine[m].value} :: 0 <= m < |spine| ==>
        spine[m].value == if !active || m > i then w[m] else if m == i then w[0] else w[m + 1]
    }

    /** One step of a pass: the two neighbours are exchanged if the values compared say so. */
    method SortStep(f: Flags, str1: Text, str2: Text, ent1: Entry, ent2: Entry,
          ghost w: seq<Text>, ghost i: nat, ghost next: nat)
      returns (r: Status, swapped: bool)
      requires Chain() && |w| == |spine| && next == i + 1 < |w| && ent1 == spine[i] && ent2 == spine[next]
      requires Compare(f, str1, str2).None? ==> i == 0
      requires Shifted(w, OutOfOrder(f, str1, str2), i)
      modifies ent1`value, ent2`value
      ensures r == if Compare(f, str1, str2).None? then Failure else Success
      ensures swapped == OutOfOrder(f, str1, str2)
      ensures Shifted(w, swapped, next)
    {
      swapped := false;
      var rc := Compare(f, str1, str2);
      if rc == None {
        return Failure, swapped;
      }
      if (!f.descending && rc.value > 0) || (f.descending && rc.value < 0) {
        ent1.value, ent2.value := ent2.value, ent1.value;
        swapped := true;
      }
      r := Success;
    }

    /** One pass of list_sort, which compares the two values it found first all along. */
    method SortPass(f: Flags, ghost w: seq<Text>) returns (r: Status, found: bool)
      requires Chain() && count >= 2 && w == View().values
      modifies spine`value
      ensures r == if Compare(f, w[0], w[1]).None? then Failure else Success
      ensures found <==> OutOfOrder(f, w[0], w[1])
      ensures Chain() && View() == old(View()).(values := if found then Rotated(w, 1) else w)
    {
      found := false;
      var ent1, ent2 := head, head.next;
      var str1, str2 := ent1.value, ent2.value;
      ghost var i, next, active := 0, 1, OutOfOrder(f, str1, str2);
      while ent1 != null && ent2 != null
        invariant 0 <= i < |spine| && next == i + 1 && ent1 == spine[i] && ent2 == spine[i].next
        invariant Compare(f, str1, str2).None? ==> i == 0
        invariant found == (active && i > 0)
        invariant Shifted(w, active, i)
        decreases |spine| - i
      {
        var swapped;
        r, swapped := SortStep(f, str1, str2, ent1, ent2, w, i, next);
        if r == Failure {
          Revalued(w);
          return;
        }
        found := found || swapped;
        ent1 := ent1.next;
        ent2 := ent2.next;
        i, next := next, next + 1;
      }
      Revalued(if found then Rotated(w, 1) else w);
      r := Success;
    }

    /** The pass behind `k` passes that went on. */
    method NextPass(f: Flags, ghost v: seq<Text>, ghost k: nat, ghost next: nat) returns (r: Status, found: bool)
      requires Chain() && count >= 2 && |v| == count && next == k + 1
      requires k <= FirstStop(f, v, 0) && View().values == Rotated(v, k)
      modifies spine`value
      ensures Chain() && found == (k < FirstStop(f, v, 0))
      ensures View() == old(View()).(values := if found then Rotated(v, next) else Rotated(v, k))
      ensures r == if next < |v| && Compare(f, v[k], v[next]).None? then Failure else Success
    {
      PassOverRotation(f, v, k);
      r, found := SortPass(f, Rotated(v, k));
    }

    /** list_sort, which only moves values from node to node. */
    method Sort(f: Flags) returns (r: Status)
      requires Chain()
      modifies spine`value
      ensures Chain()
      ensures View() == old(View()).(values := AsSorted(f, old(View()).values).1)
      ensures r == AsSorted(f, old(View()).values).0
    {
      if count < 2 {
        return Success;
      }
      ghost var v, k, next := View().values, 0, 1;
      ghost var stop := FirstStop(f, v, 0);
      var found := true;
      r := Success;
      assert Rotated(v, 0) == v;
      while found && r == Success
        invariant Chain() && k <= stop && next == k + 1 && View() == old(View()).(values := Rotated(v, k))
        invariant !found ==> k == stop && r == if next < |v| && Compare(f, v[k], v[next]).None? then Failure else Success
        invariant found ==> r == Success
        decreases stop - k, found
      {
        r, found := NextPass(f, v, k, next);
        if found {
          k, next := next, next + 1;
        }
      }
    }
  }

  /** Any operation on a list on the heap. When Apply gives a shape, the list has that shape;
      when it gives none, no way of `count` live nodes leads from head to NULL any more. */
  method Perform(l: List, op: Op, src: List)
    requires l.Chain() && src.Chain() && l != src && l.Apart(src)
    requires FromAnother(op) ==> op.src == src.View()
    requires op.Merge? ==> l.spine == [] || l.tail != null
    modifies l, l.spine, src
    ensures match Apply(op, old(l.View()))
            case Some(t) => l.Chain() && l.View() == t
            case None => forall nodes: seq<Entry> :: l.Walk(nodes) ==> |nodes| != l.count
    ensures Apply(op, old(l.View())).Some? ==>
              forall e :: e in l.spine ==> e in old(l.spine) || e in old(src.spine) || fresh(e)
  {
    if FromAnother(op) {
      PerformFrom(l, op, src);
    } else if op.Reverse? {
      PerformReverse(l);
    } else if op.Pop? || op.Delete? {
      PerformCut(l, op);
    } else {
      PerformPlain(l, op);
    }
  }

  predicate FromAnother(op: Op) { op.Copy? || op.Move? || op.Merge? }

  method PerformFrom(l: List, op: Op, src: List)
    requires l.Chain() && src.Chain() && l != src && l.Apart(src)
    requires FromAnother(op) && op.src == src.View()
    requires op.Merge? ==> l.spine == [] || l.tail != null
    modifies l, l.spine, src
    ensures l.Chain() && Apply(op, old(l.View())) == Some(l.View())
    ensures forall e :: e in l.spine ==> e in old(l.spine) || e in old(src.spine) || fresh(e)
  {
    match op
    case Copy(_) => l.Copy(src);
    case Move(_) => l.Move(src);
    case Merge(_) => l.Merge(src);
  }

  method PerformReverse(l: List)
    requires l.Chain()
    modifies l, l.spine
    ensures match Apply(Op.Reverse, old(l.View()))
            case Some(t) => l.Chain() && l.View() == t && forall e :: e in l.spine ==> e in old(l.spine)
            case None => forall nodes: seq<Entry> :: l.Walk(nodes) ==> |nodes| != l.count
  {
    ghost var whole, seam, nodes := Whole(l.View()), LastSeam(l.View().back), l.spine;
    l.Reverse();
    if old(l.Tailed()) {
      ReversedMembers(nodes, seam);
      if seam == 0 {
        NoSeamIsWhole(old(l.View()));
      } else if !whole {
        l.Miscounts();
      }
    }
  }

  lemma ReversedMembers<T>(s: seq<T>, k: nat)
    requires k <= |s|
    ensures |Reversed(s[k..])| == |s| - k && forall e :: e in Reversed(s[k..]) ==> e in s
  {
  }

  lemma NoSeamIsWhole(s: Shape)
    requires Proper(s) && s.tailed && LastSeam(s.back) == 0
    ensures Whole(s)
  {
    assert s.back == AllBack(|s.values|);
  }

  method PerformCut(l: List, op: Op)
    requires l.Chain() && (op.Pop? || op.Delete?)
    modifies l, l.spine
    ensures match Apply(op, old(l.View()))
            case Some(t) => l.Chain() && l.View() == t && forall e :: e in l.spine ==> e in old(l.spine)
            case None => forall nodes: seq<Entry> :: l.Walk(nodes) ==> |nodes| != l.count
  {
    ghost var v := l.View();
    match op {
      case Pop =>
        var _ := l.Pop();
        if Apply(op, v).None? {
          l.LeadsAstray(|l.spine| - 1);
        }
      case Delete(offset) =>
        var _ := l.Delete(offset);
        if Apply(op, v).None? {
          l.LeadsAstray(offset);
        }
    }
  }

  method PerformPlain(l: List, op: Op)
    requires l.Chain() && !FromAnother(op) && !op.Reverse? && !op.Pop? && !op.Delete?
    modifies l, l.spine
    ensures match Apply(op, old(l.View()))
            case Some(t) => l.Chain() && l.View() == t && forall e :: e in l.spine ==> e in old(l.spine) || fresh(e)
            case None => forall nodes: seq<Entry> :: l.Walk(nodes) ==> |nodes| != l.count
  {
    match op {
      case Push(v) =>
        l.Push(v);
        if !old(l.Tailed()) {
          l.Miscounts();
        }
      case Unshift(v) => l.Unshift(v);
      case Shift => var _ := l.Shift();
      case Truncate => l.Truncate();
      case Sort(flags) => var _ := l.Sort(flags);
    }
  }

  // ----- runs on the heap

  lemma ViewProper(l: List)
    requires l.Chain()
    ensures Proper(l.View())
  {
    l.ViewShows();
  }

  /** One operation of a run that goes on after it; the sources of later operations are left alone. */
  method PerformNext(l: List, ops: seq<Op>, srcs: seq<List>, j: nat, ghost n: nat, ghost heap: set<object>)
    requires l.Chain() && j < n <= |ops| == |srcs| && srcs[j].Chain() && srcs[j] != l && l.Apart(srcs[j])
    requires Proper(l.View()) && (forall op :: op in ops ==> ProperOp(op)) && Run(ops[j..n], l.View()).Some?
    requires FromAnother(ops[j]) ==> ops[j].src == srcs[j].View()
    requires forall e :: e in l.spine || e in srcs[j].spine ==> e in heap
    requires forall i :: j < i < |srcs| ==> srcs[i] != l && srcs[i] != srcs[j] && srcs[j].Apart(srcs[i]) && l.Apart(srcs[i])
    modifies l, l.spine, srcs[j]
    ensures l.Chain() && Proper(l.View()) && Run(ops[j + 1..n], l.View()) == old(Run(ops[j..n], l.View()))
    ensures forall e :: e in l.spine ==> e in heap || fresh(e)
    ensures forall i :: j < i < |srcs| ==> unchanged(srcs[i]) && unchanged(srcs[i].spine) && l.Apart(srcs[i])
  {
    RunFirst(ops, j, n, l.View());
    Perform(l, ops[j], srcs[j]);
  }

  /** A run of operations on a list on the heap, up to the first that does not give a shape, if
      there is one. The list follows the run on shapes; that last operation dereferences NULL
      if it is a merge, and otherwise leaves no way of `count` live nodes from head to NULL. */
  method PerformRun(l: List, ops: seq<Op>, srcs: seq<List>, n: nat, ghost heap: set<object>)
    requires l.Chain() && |srcs| == |ops| && n <= |ops|
    requires l in heap && forall e :: e in l.spine ==> e in heap
    requires forall i :: 0 <= i < |srcs| ==> srcs[i] in heap && forall e :: e in srcs[i].spine ==> e in heap
    requires forall i :: 0 <= i < |srcs| ==> srcs[i] != l && srcs[i].Chain() && l.Apart(srcs[i])
    requires forall i, j :: 0 <= i < j < |srcs| ==> srcs[i] != srcs[j] && srcs[i].Apart(srcs[j])
    requires forall i :: 0 <= i < |ops| && FromAnother(ops[i]) ==> ops[i].src == srcs[i].View()
    requires Proper(l.View()) && forall op :: op in ops ==> ProperOp(op)
    requires Run(ops[..n], l.View()).Some? && (n < |ops| ==> Run(ops[..n + 1], l.View()).None?)
    modifies heap
    ensures n == |ops| ==> l.Chain() && Some(l.View()) == Run(ops, old(l.View()))
    ensures n < |ops| && ops[n].Merge? ==> l.Chain() && l.head != null && l.tail == null
    ensures n < |ops| && !ops[n].Merge? ==> forall nodes: seq<Entry> :: l.Walk(nodes) ==> |nodes| != l.count
  {
    ghost var start, end := l.View(), Run(ops[..n], l.View());
    assert ops[0..n] == ops[..n];
    for j := 0 to n
      invariant l.Chain() && Proper(l.View()) && Run(ops[j..n], l.View()) == end
      invariant forall e :: e in l.spine ==> e in heap || fresh(e)
      invariant forall i :: j <= i < |srcs| ==> unchanged(srcs[i]) && unchanged(srcs[i].spine) && l.Apart(srcs[i])
    {
      PerformNext(l, ops, srcs, j, n, heap + set e | e in l.spine);
    }
    assert ops[n..n] == [];
    if n < |ops| {
      RunLast(ops, n, start);
      PerformLast(l, ops[n], srcs[n]);
    } else {
      assert ops[..n] == ops;
    }
  }

  /** The operation at which a run ends. */
  method PerformLast(l: List, op: Op, src: List)
    requires l.Chain() && src.Chain() && l != src && l.Apart(src)
    requires (FromAnother(op) ==> op.src == src.View()) && Apply(op, l.View()).None?
    modifies l, l.spine, src
    ensures op.Merge? ==> l.Chain() && l.head != null && l.tail == null
    ensures !op.Merge? ==> forall nodes: seq<Entry> :: l.Walk(nodes) ==> |nodes| != l.count
  {
    if !op.Merge? {
      Perform(l, op, src);
    }
  }
}
