/** The comparisons of list_sort and the arrangement its loops arrive at. */
module Sorting {
  import opened Bytes

  /** The SORT_DESCENDING and SORT_NUMERIC bits. */
  datatype Flags = Flags(descending: bool, numeric: bool)

  const UINT_MAX := 0xffff_ffff
  const ULONG_MAX := 0xffff_ffff_ffff_ffff  // unsigned long has 64 bits

  /** strcmp(3): -1, 0 or 1. */
  function Strcmp(a: Text, b: Text): int {
    if a == [] && b == [] then 0
    else if a == [] then -1
    else if b == [] then 1
    else if a[0] < b[0] then -1
    else if a[0] > b[0] then 1
    else Strcmp(a[1..], b[1..])
  }

  predicate IsDigits(s: Text) { forall i :: 0 <= i < |s| ==> '0' <= s[i] <= '9' }

  function DecimalValue(s: Text): nat
    requires IsDigits(s)
  {
    if s == [] then 0 else 10 * DecimalValue(s[..|s| - 1]) + (s[|s| - 1] as int - '0' as int)
  }

  /** isspace(3) in the C locale. */
  predicate IsSpace(c: Byte) { c == ' ' || 9 <= c as int <= 13 }

  function SkipSpace(s: Text): Text {
    if s != [] && IsSpace(s[0]) then SkipSpace(s[1..]) else s
  }

  function Sign(t: Text): (r: Text)
    ensures |r| <= |t|
  {
    if t != [] && (t[0] == '+' || t[0] == '-') then [t[0]] else []
  }

  /** A minus sign negates within unsigned long; a larger number is an error. */
  function FromDigits(sign: Text, d: Text): Option<nat> {
    if d == [] || !IsDigits(d) || DecimalValue(d) > ULONG_MAX then None
    else if sign == ['-'] && DecimalValue(d) > 0 then Some(ULONG_MAX + 1 - DecimalValue(d))
    else Some(DecimalValue(d))
  }

  /** strtoul(3) in base 10 over the whole string, as str_to_ulong demands it: white space, a
      sign, digits. */
  function ToUlong(s: Text): Option<nat> {
    var t := SkipSpace(s);
    FromDigits(Sign(t), t[|Sign(t)|..])
  }

  /** str_to_uint32; None is a conversion error. */
  function ToUint32(s: Text): Option<nat> {
    var n := ToUlong(CString(s));
    if n.Some? && n.value <= UINT_MAX then n else None
  }

  /** The sign of the comparison list_sort makes, or None when a value does not convert. */
  function Compare(f: Flags, a: Text, b: Text): Option<int> {
    if !f.numeric then Some(Strcmp(CString(a), CString(b)))
    else match (ToUint32(a), ToUint32(b))
      case (Some(i), Some(j)) => Some(if i > j then 1 else if i < j then -1 else 0)
      case _ => None
  }

  /** list_sort swaps a pair that compares this way. */
  predicate OutOfOrder(f: Flags, a: Text, b: Text) {
    match Compare(f, a, b)
    case Some(rc) => if f.descending then rc < 0 else rc > 0
    case None => false
  }

  predicate Comparable(f: Flags, v: seq<Text>) {
    f.numeric ==> forall i :: 0 <= i < |v| ==> ToUint32(v[i]).Some?
  }

  predicate Sorted(f: Flags, v: seq<Text>) {
    forall i, j :: 0 <= i < j < |v| ==> !OutOfOrder(f, v[i], v[j])
  }

  function Rotated<T>(v: seq<T>, k: nat): seq<T>
    requires k <= |v|
  {
    v[k..] + v[..k]
  }

  /** The first adjacent pair, from `k` on, that list_sort would leave alone. */
  function FirstStop(f: Flags, v: seq<Text>, k: nat): (r: nat)
    requires k < |v|
    ensures k <= r < |v|
    ensures forall i :: k <= i < r ==> OutOfOrder(f, v[i], v[i + 1])
    ensures r < |v| - 1 ==> !OutOfOrder(f, v[r], v[r + 1])
    decreases |v| - k
  {
    if k + 1 < |v| && OutOfOrder(f, v[k], v[k + 1]) then FirstStop(f, v, k + 1) else k
  }

  /** What list_sort makes of the values: each pass over a list whose first pair is out of
      order moves the first value to the end, and the first other pair stops it. */
  function AsSorted(f: Flags, v: seq<Text>): (Status, seq<Text>) {
    if |v| < 2 then (Success, v)
    else
      var k := FirstStop(f, v, 0);
      (if k + 1 < |v| && Compare(f, v[k], v[k + 1]).None? then Failure else Success, Rotated(v, k))
  }

  lemma {:induction false} StrcmpAntisymmetric(a: Text, b: Text)
    ensures Strcmp(a, b) == -Strcmp(b, a)
  {
    if a != [] && b != [] && a[0] == b[0] {
      StrcmpAntisymmetric(a[1..], b[1..]);
    }
  }

  lemma {:induction false} StrcmpTransitive(a: Text, b: Text, c: Text)
    requires Strcmp(a, b) <= 0 && Strcmp(b, c) <= 0
    ensures Strcmp(a, c) <= 0
    ensures Strcmp(a, b) < 0 || Strcmp(b, c) < 0 ==> Strcmp(a, c) < 0
  {
    if a != [] && b != [] && c != [] && a[0] == b[0] == c[0] {
      StrcmpTransitive(a[1..], b[1..], c[1..]);
    }
  }

  /** Being in order is transitive, and so is being strictly out of order. */
  lemma OrderTransitive(f: Flags, a: Text, b: Text, c: Text)
    requires Comparable(f, [a, b, c])
    ensures !OutOfOrder(f, a, b) && !OutOfOrder(f, b, c) ==> !OutOfOrder(f, a, c)
    ensures OutOfOrder(f, a, b) && OutOfOrder(f, b, c) ==> OutOfOrder(f, a, c)
    ensures OutOfOrder(f, a, b) ==> !OutOfOrder(f, b, a)
  {
    assert [a, b, c][0] == a && [a, b, c][1] == b && [a, b, c][2] == c;
    var x, y, z := CString(a), CString(b), CString(c);
    StrcmpAntisymmetric(x, y);
    StrcmpAntisymmetric(y, z);
    StrcmpAntisymmetric(x, z);
    if Strcmp(x, y) <= 0 && Strcmp(y, z) <= 0 {
      StrcmpTransitive(x, y, z);
    }
    if Strcmp(z, y) <= 0 && Strcmp(y, x) <= 0 {
      StrcmpTransitive(z, y, x);
    }
  }

  lemma OutOfOrderConverts(f: Flags, a: Text, b: Text)
    requires OutOfOrder(f, a, b)
    ensures Comparable(f, [a, b])
  {
  }

  /** A strict descent keeps its first value out of order with every later one. */
  lemma {:induction false} DescentFromFirst(f: Flags, v: seq<Text>, k: nat)
    requires 0 < k < |v|
    requires forall i :: 0 <= i < k ==> OutOfOrder(f, v[i], v[i + 1])
    ensures OutOfOrder(f, v[0], v[k])
  {
    if k > 1 {
      DescentFromFirst(f, v, k - 1);
      OutOfOrderConverts(f, v[0], v[k - 1]);
      OutOfOrderConverts(f, v[k - 1], v[k]);
      assert Comparable(f, [v[0], v[k - 1], v[k]]);
      OrderTransitive(f, v[0], v[k - 1], v[k]);
    }
  }

  /** Going round the list, not every adjacent pair can be out of order, so the passes end. */
  lemma NoCyclicDescent(f: Flags, v: seq<Text>)
    requires |v| >= 2
    requires forall i :: 0 <= i < |v| - 1 ==> OutOfOrder(f, v[i], v[i + 1])
    ensures !OutOfOrder(f, v[|v| - 1], v[0]) && Compare(f, v[|v| - 1], v[0]).Some?
  {
    var n := |v| - 1;
    DescentFromFirst(f, v, n);
    OutOfOrderConverts(f, v[0], v[n]);
    assert Comparable(f, [v[0], v[n], v[0]]);
    OrderTransitive(f, v[0], v[n], v[0]);
  }

  /** A pass over the list after `k` rotations goes on exactly while the first stop is ahead. */
  lemma PassOverRotation(f: Flags, v: seq<Text>, k: nat)
    requires |v| >= 2 && k <= FirstStop(f, v, 0)
    ensures var w := Rotated(v, k);
            && (OutOfOrder(f, w[0], w[1]) <==> k < FirstStop(f, v, 0))
            && (Compare(f, w[0], w[1]).None? <==> k + 1 < |v| && Compare(f, v[k], v[k + 1]).None?)
            && (k < FirstStop(f, v, 0) ==> Rotated(w, 1) == Rotated(v, k + 1))
  {
    var w := Rotated(v, k);
    assert w[0] == v[k];
    if k == |v| - 1 {
      assert w[1] == v[0];
      NoCyclicDescent(f, v);
    } else {
      assert w[1] == v[k + 1];
    }
  }

  lemma RotatedPermutes<T>(v: seq<T>, k: nat)
    requires k <= |v|
    ensures multiset(Rotated(v, k)) == multiset(v)
  {
    assert v == v[..k] + v[k..];
  }

  /** Whatever list_sort returns, the list holds a rotation of what it held before. */
  lemma SortRotates(f: Flags, v: seq<Text>)
    ensures exists k :: 0 <= k <= |v| && AsSorted(f, v).1 == Rotated(v, k)
    ensures multiset(AsSorted(f, v).1) == multiset(v)
  {
    if |v| < 2 {
      assert Rotated(v, 0) == v;
    } else {
      RotatedPermutes(v, FirstStop(f, v, 0));
    }
  }

  /** list_sort sorts exactly the lists that are sorted already, and those that become sorted
      when their first value moves to the end. */
  predicate SortsCorrectly(f: Flags, v: seq<Text>) {
    Sorted(f, v) || (v != [] && Sorted(f, v[1..]) && !OutOfOrder(f, v[|v| - 1], v[0]))
  }

  lemma SortExact(f: Flags, v: seq<Text>)
    requires Comparable(f, v)
    ensures AsSorted(f, v).0 == Success
    ensures Sorted(f, AsSorted(f, v).1) <==> SortsCorrectly(f, v)
  {
    if |v| >= 2 {
      var k := FirstStop(f, v, 0);
      var r := Rotated(v, k);
      if Sorted(f, r) && k > 0 {
        SortedRotation(f, v, k);
      }
      if !Sorted(f, v) && SortsCorrectly(f, v) {
        FrontMovesBack(f, v);
      }
      if k == 0 {
        assert r == v;
      }
    }
  }

  lemma LongDescentStaysUnsorted(f: Flags, v: seq<Text>, k: nat)
    requires 2 <= k <= |v| && OutOfOrder(f, v[0], v[1])
    ensures !Sorted(f, Rotated(v, k))
  {
    var r, n := Rotated(v, k), |v|;
    assert r[n - k] == v[0] && r[n - k + 1] == v[1];
  }

  lemma SortedRotation(f: Flags, v: seq<Text>, k: nat)
    requires |v| >= 2 && k == FirstStop(f, v, 0) > 0 && Sorted(f, Rotated(v, k))
    ensures SortsCorrectly(f, v)
  {
    var r, n := Rotated(v, k), |v|;
    if k >= 2 {
      LongDescentStaysUnsorted(f, v, k);
      assert false;
    }
    assert forall i :: 0 <= i < n - 1 ==> r[i] == v[1..][i];
    assert r[n - 1] == v[0] && r[n - 2] == v[n - 1];
  }

  lemma FrontInOrder(f: Flags, v: seq<Text>)
    requires |v| >= 2 && Comparable(f, v) && Sorted(f, v[1..]) && !OutOfOrder(f, v[0], v[1])
    ensures Sorted(f, v)
  {
    assert forall i :: 0 < i < |v| ==> v[i] == v[1..][i - 1];
    forall i | 1 <= i < |v|
      ensures !OutOfOrder(f, v[0], v[i])
    {
      OrderTransitive(f, v[0], v[1], v[i]);
    }
  }

  lemma SortedSnoc(f: Flags, u: seq<Text>, x: Text)
    ensures Sorted(f, u + [x]) <==> Sorted(f, u) && forall i :: 0 <= i < |u| ==> !OutOfOrder(f, u[i], x)
  {
    var r, n := u + [x], |u|;
    assert r[n] == x && forall i :: 0 <= i < n ==> r[i] == u[i];
    if Sorted(f, r) {
      forall i | 0 <= i < n
        ensures !OutOfOrder(f, u[i], x)
      {
        assert !OutOfOrder(f, r[i], r[n]);
      }
    }
  }

  /** What is in order with the last of sorted values is in order with all of them. */
  lemma LastDecides(f: Flags, u: seq<Text>, x: Text)
    requires u != [] && Sorted(f, u) && Comparable(f, u + [x])
    ensures (forall i :: 0 <= i < |u| ==> !OutOfOrder(f, u[i], x)) <==> !OutOfOrder(f, u[|u| - 1], x)
  {
    var n := |u| - 1;
    assert (u + [x])[n + 1] == x && forall i :: 0 <= i <= n ==> (u + [x])[i] == u[i];
    if !OutOfOrder(f, u[n], x) {
      forall i | 0 <= i < n
        ensures !OutOfOrder(f, u[i], x)
      {
        OrderTransitive(f, u[i], u[n], x);
      }
    }
  }

  /** The first value behind the others. */
  lemma FrontLast(f: Flags, v: seq<Text>)
    requires v != [] && Comparable(f, v)
    ensures Sorted(f, v[1..] + [v[0]]) <==> Sorted(f, v[1..]) && !OutOfOrder(f, v[|v| - 1], v[0])
  {
    var u, x := v[1..], v[0];
    SortedSnoc(f, u, x);
    if u == [] {
      OrderTransitive(f, x, x, x);
    } else if Sorted(f, u) {
      assert u[|u| - 1] == v[|v| - 1];
      assert forall i :: 0 <= i < |u| ==> u[i] == v[i + 1];
      LastDecides(f, u, x);
    }
  }

  lemma FrontMovesBack(f: Flags, v: seq<Text>)
    requires |v| >= 2 && Comparable(f, v) && SortsCorrectly(f, v) && !Sorted(f, v)
    ensures FirstStop(f, v, 0) == 1 && Sorted(f, Rotated(v, 1))
  {
    FrontLast(f, v);
    assert Rotated(v, 1) == v[1..] + [v[0]];
    if !OutOfOrder(f, v[0], v[1]) {
      FrontInOrder(f, v);
    }
    assert |v| > 2 ==> v[1] == v[1..][0] && v[2] == v[1..][1];
  }

  /** Sorting an ordinary three-element list fails. */
  lemma SortFailsOnCBA()
    ensures AsSorted(Flags(false, false), ["c", "b", "a"]) == (Success, ["a", "c", "b"])
    ensures OutOfOrder(Flags(false, false), "c", "b")
  {
    assert Strcmp("c", "b") == 1 && Strcmp("b", "a") == 1;
    var v: seq<Text> := ["c", "b", "a"];
    assert FirstStop(Flags(false, false), v, 1) == 2;
    assert Rotated(v, 2) == ["a", "c", "b"];
  }
}
