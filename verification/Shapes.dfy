/** What a list of list.c amounts to when the heap is forgotten, and what runs of its
    operations make of it. */
module Shapes {
  import opened Bytes
  import opened Sorting

  /** What a list amounts to: its values, for every node whether its back link leads to
      its predecessor (the first node, whose back link is NULL, counts as linked), and
      whether the tail pointer is where it should be. */
  datatype Shape = Shape(values: seq<Text>, back: seq<bool>, tailed: bool)

  const EMPTY := Shape([], [], true)

  function AllBack(n: nat): seq<bool> { seq(n, _ => true) }

  /** Every back link and the tail pointer are in order. */
  predicate Whole(s: Shape) { s.tailed && s.back == AllBack(|s.values|) }

  /** The shape of a doubly linked list in good order. */
  function ShapeOf(v: seq<Text>): (s: Shape)
    ensures Whole(s)
  {
    Shape(v, AllBack(|v|), true)
  }

  lemma PushedShapeOf(v: seq<Text>, x: Text)
    ensures Pushed(ShapeOf(v), x) == ShapeOf(v + [x])
  {
    assert AllBack(|v|) + [true] == AllBack(|v| + 1);
  }

  function Drop<T>(s: seq<T>, k: nat): seq<T>
    requires k < |s|
  {
    s[..k] + s[k + 1..]
  }

  lemma DropFirst<T>(s: seq<T>)
    requires s != []
    ensures Drop(s, 0) == s[1..]
  {
  }

  function Pushed(s: Shape, v: Text): Shape {
    Shape(s.values + [v], s.back + [true], true)
  }

  /** list_unshift leaves the old first node without a back link. */
  function Unshifted(s: Shape, v: Text): Shape {
    Shape([v] + s.values, [true] + (if s.back == [] then [] else s.back[0 := false]), s.back == [] || s.tailed)
  }

  /** Unlinking node `k` hands its back link to its successor. */
  function Deleted(s: Shape, k: nat): Shape
    requires k < |s.values| == |s.back|
  {
    var back := Drop(s.back, k);
    Shape(Drop(s.values, k), if k < |back| then back[k := true] else back, s.tailed || |s.values| == 1)
  }

  /** list_merge takes the tail pointer of the source, whatever it is. */
  function Merged(d: Shape, s: Shape): Shape {
    Shape(d.values + s.values,
          d.back + (if d.back == [] || s.back == [] then s.back else s.back[0 := false]),
          if s.values == [] then d.values == [] else s.tailed)
  }

  function Reversed<T>(s: seq<T>): (r: seq<T>)
    ensures |r| == |s|
    ensures forall i :: 0 <= i < |s| ==> r[i] == s[|s| - 1 - i]
  {
    if s == [] then [] else Reversed(s[1..]) + [s[0]]
  }

  /** The last node without a back link, or the first node. */
  function LastSeam(back: seq<bool>): (k: nat)
    ensures back != [] ==> k < |back|
    ensures 0 < k ==> k < |back| && !back[k]
    ensures forall i :: k < i < |back| ==> back[i]
    ensures back == [] ==> k == 0
  {
    if |back| <= 1 then 0
    else if !back[|back| - 1] then |back| - 1
    else LastSeam(back[..|back| - 1])
  }

  /** The operations of list.c; Merge, Move and Copy take the shape of their source. */
  datatype Op =
    | Push(v: Text)
    | Unshift(v: Text)
    | Pop
    | Shift
    | Delete(offset: nat)
    | Truncate
    | Reverse
    | Sort(flags: Flags)
    | Copy(src: Shape)
    | Move(src: Shape)
    | Merge(src: Shape)

  /** The list after an operation, or None when the operation breaks the chain of nodes. */
  function Apply(op: Op, s: Shape): Option<Shape>
    requires |s.values| == |s.back|
  {
    var n := |s.values|;
    match op
    case Push(v) => if s.tailed then Some(Pushed(s, v)) else None
    case Unshift(v) => Some(Unshifted(s, v))
    case Pop => if n == 0 || !s.tailed then Some(s) else if s.back[n - 1] then Some(Deleted(s, n - 1)) else None
    case Shift => Some(if n == 0 then s else Deleted(s, 0))
    case Delete(k) => if k >= n then Some(s) else if s.back[k] then Some(Deleted(s, k)) else None
    case Truncate => Some(EMPTY)
    case Reverse => if Whole(s) then Some(s.(values := Reversed(s.values))) else None
    case Sort(f) => Some(s.(values := AsSorted(f, s.values).1))
    case Copy(src) => Some(ShapeOf(src.values))
    case Move(src) => Some(src)
    case Merge(src) => if n == 0 || s.tailed then Some(Merged(s, src)) else None
  }

  /** What the operation is meant to make of the values `v`. Sorting is meant to put them in
      order, provided that they can be compared at all. */
  ghost predicate Means(op: Op, v: seq<Text>, w: seq<Text>) {
    match op
    case Push(x) => w == v + [x]
    case Unshift(x) => w == [x] + v
    case Pop => w == if v == [] then v else v[..|v| - 1]
    case Shift => w == if v == [] then v else v[1..]
    case Delete(k) => w == if k >= |v| then v else Drop(v, k)
    case Truncate => w == []
    case Reverse => |w| == |v| && forall i :: 0 <= i < |v| ==> w[i] == v[|v| - 1 - i]
    case Sort(f) => multiset(w) == multiset(v) && (Comparable(f, v) ==> Sorted(f, w))
    case Copy(src) => w == src.values
    case Move(src) => w == src.values
    case Merge(src) => w == v + src.values
  }

  /** The one operation that may do something else: a sort of values it does not sort. */
  predicate MissesAim(op: Op, v: seq<Text>) {
    op.Sort? && Comparable(op.flags, v) && !SortsCorrectly(op.flags, v)
  }

  /** Shapes that lists have: the first node counts as linked and an empty list has its tail. */
  predicate Proper(s: Shape) {
    |s.values| == |s.back| && (s.back != [] ==> s.back[0]) && (s.values == [] ==> s.tailed)
  }

  predicate ProperOp(op: Op) {
    (op.Copy? || op.Move? || op.Merge?) ==> Proper(op.src)
  }

  lemma ApplyProper(op: Op, s: Shape)
    requires Proper(s) && ProperOp(op)
    ensures Apply(op, s).Some? ==> Proper(Apply(op, s).value)
  {
    if op.Sort? {
      SortRotates(op.flags, s.values);
    }
  }

  function Run(ops: seq<Op>, s: Shape): (r: Option<Shape>)
    requires Proper(s) && forall op :: op in ops ==> ProperOp(op)
    ensures r.Some? ==> Proper(r.value)
  {
    if ops == [] then Some(s)
    else
      ApplyProper(ops[0], s);
      match Apply(ops[0], s)
      case None => None
      case Some(t) => Run(ops[1..], t)
  }

  /** A run of operations `j` to `n` begins with operation `j`. */
  lemma RunFirst(ops: seq<Op>, j: nat, n: nat, s: Shape)
    requires j < n <= |ops| && Proper(s) && forall op :: op in ops ==> ProperOp(op)
    requires Run(ops[j..n], s).Some?
    ensures Apply(ops[j], s).Some? && Proper(Apply(ops[j], s).value)
    ensures Run(ops[j + 1..n], Apply(ops[j], s).value) == Run(ops[j..n], s)
  {
    assert ops[j..n][0] == ops[j] && ops[j..n][1..] == ops[j + 1..n];
    ApplyProper(ops[j], s);
  }

  /** The first operation at which a run ends. */
  lemma {:induction false} RunLast(ops: seq<Op>, n: nat, s: Shape)
    requires n < |ops| && Proper(s) && forall op :: op in ops ==> ProperOp(op)
    requires Run(ops[..n], s).Some?
    ensures Run(ops[..n + 1], s) == Apply(ops[n], Run(ops[..n], s).value)
  {
    ApplyProper(ops[0], s);
    if n == 0 {
      assert ops[..1] == [ops[0]] && ops[..1][1..] == [];
    } else {
      var rest, t := ops[1..], Apply(ops[0], s).value;
      assert ops[..n + 1][1..] == rest[..n] && ops[..n][1..] == rest[..n - 1];
      RunLast(rest, n - 1, t);
    }
  }

  /** Every operation of the run does what it is meant to do. */
  ghost predicate RunMeant(ops: seq<Op>, s: Shape)
    requires Proper(s) && forall op :: op in ops ==> ProperOp(op)
  {
    if ops == [] then true
    else
      ApplyProper(ops[0], s);
      match Apply(ops[0], s)
      case None => false
      case Some(t) => Means(ops[0], s.values, t.values) && RunMeant(ops[1..], t)
  }

  /** Every sort of the run meets a list that it does sort. */
  predicate SortsMeetTheirLists(ops: seq<Op>, s: Shape)
    requires Proper(s) && forall op :: op in ops ==> ProperOp(op)
  {
    if ops == [] then true
    else
      ApplyProper(ops[0], s);
      !MissesAim(ops[0], s.values) &&
      match Apply(ops[0], s)
      case None => true
      case Some(t) => SortsMeetTheirLists(ops[1..], t)
  }

  /** Operations that leave every back link in order. */
  predicate KeepsLinks(op: Op) {
    !op.Unshift? && !op.Merge? && (op.Move? ==> Whole(op.src))
  }

  /** Operations that never follow a back link. */
  predicate IgnoresLinks(op: Op) {
    && !op.Pop? && !op.Delete? && !op.Reverse?
    && (op.Move? ==> op.src.tailed)
    && (op.Merge? ==> op.src.tailed && op.src.values != [])
  }

  /** An operation that does not break the chain of a list with its tail does what it is meant
      to do, unless it is a sort of values it does not sort. */
  lemma SurvivingStepExact(op: Op, s: Shape)
    requires Proper(s) && s.tailed && Apply(op, s).Some?
    ensures Means(op, s.values, Apply(op, s).value.values) <==> !MissesAim(op, s.values)
  {
    if op.Sort? {
      SortRotates(op.flags, s.values);
      if Comparable(op.flags, s.values) {
        SortExact(op.flags, s.values);
      }
    }
  }

  lemma LinkKeepingStep(op: Op, s: Shape)
    requires Whole(s) && ProperOp(op) && KeepsLinks(op)
    ensures Apply(op, s).Some? && Whole(Apply(op, s).value)
  {
    if op.Sort? {
      SortRotates(op.flags, s.values);
    }
  }

  /** Runs without unshift and merge keep a doubly linked list whole, and do at every step what
      they are meant to do exactly if their sorts meet lists that they sort. */
  lemma {:induction false} LinkKeepingRuns(ops: seq<Op>, s: Shape)
    requires Whole(s) && forall op :: op in ops ==> ProperOp(op) && KeepsLinks(op)
    ensures Run(ops, s).Some? && Whole(Run(ops, s).value)
    ensures RunMeant(ops, s) <==> SortsMeetTheirLists(ops, s)
  {
    if ops != [] {
      var op := ops[0];
      LinkKeepingStep(op, s);
      SurvivingStepExact(op, s);
      LinkKeepingRuns(ops[1..], Apply(op, s).value);
    }
  }

  /** Runs that only append, merge, sort and take from the front never break the chain,
      whatever unshift and merge left out, and do what they are meant to do on the same
      condition. */
  lemma {:induction false} QueueRuns(ops: seq<Op>, s: Shape)
    requires Proper(s) && s.tailed && forall op :: op in ops ==> ProperOp(op) && IgnoresLinks(op)
    ensures Run(ops, s).Some? && Run(ops, s).value.tailed
    ensures RunMeant(ops, s) <==> SortsMeetTheirLists(ops, s)
  {
    if ops != [] {
      var op := ops[0];
      ApplyProper(op, s);
      var t := Apply(op, s);
      assert t.Some? && t.value.tailed;
      SurvivingStepExact(op, s);
      QueueRuns(ops[1..], t.value);
    }
  }

  function Then(s: Option<Shape>, op: Op): (t: Option<Shape>)
    requires ProperOp(op) && (s.Some? ==> Proper(s.value))
    ensures t.Some? ==> Proper(t.value)
  {
    match s
    case None => None
    case Some(x) =>
      ApplyProper(op, x);
      Apply(op, x)
  }

  lemma RunOfTwo(a: Op, b: Op, s: Shape)
    requires Proper(s) && ProperOp(a) && ProperOp(b)
    ensures Run([a, b], s) == Then(Then(Some(s), a), b)
  {
    assert [a, b][1..] == [b] && [b][1..] == [];
    assert forall t :: Proper(t) ==> Run([b], t) == Then(Some(t), b);
  }

  lemma RunOfThree(a: Op, b: Op, c: Op, s: Shape)
    requires Proper(s) && ProperOp(a) && ProperOp(b) && ProperOp(c)
    ensures Run([a, b, c], s) == Then(Then(Then(Some(s), a), b), c)
  {
    assert [a, b, c][1..] == [b, c];
    ApplyProper(a, s);
    if Apply(a, s).Some? {
      RunOfTwo(b, c, Apply(a, s).value);
    }
  }

  /** An unshift or a merge, then a pop; or a merge with an empty list, then a push. */
  lemma RunsThatBreak(a: Text, b: Text)
    ensures Run([Push(a), Unshift(b), Pop], EMPTY) == None
    ensures Run([Push(a), Merge(Pushed(EMPTY, b)), Pop], EMPTY) == None
    ensures Run([Push(a), Merge(EMPTY), Push(b)], EMPTY) == None
  {
    RunOfThree(Push(a), Unshift(b), Pop, EMPTY);
    RunOfThree(Push(a), Merge(Pushed(EMPTY, b)), Pop, EMPTY);
    RunOfThree(Push(a), Merge(EMPTY), Push(b), EMPTY);
  }

  /** Two reversals restore a whole list. */
  lemma ReverseTwice(s: Shape)
    requires Whole(s)
    ensures Run([Reverse, Reverse], s) == Some(s)
  {
    RunOfTwo(Reverse, Reverse, s);
    assert Reversed(Reversed(s.values)) == s.values;
  }
}
