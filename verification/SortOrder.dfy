/** The two orders of list_sort written out, of texts and of numbers, and what the sort makes of
    them. */
module SortOrder {
  import opened Bytes
  import opened Sorting

  // ----- texts

  /** At the first octet that differs `a` has the smaller one, or `a` is a proper prefix. */
  ghost predicate Before(a: Text, b: Text) {
    a < b || exists i :: 0 <= i < |a| && i < |b| && a[..i] == b[..i] && a[i] as int < b[i] as int
  }

  lemma BeforeFirst(a: Text, b: Text)
    requires a != [] && b != []
    ensures Before(a, b) <==> a[0] < b[0] || (a[0] == b[0] && Before(a[1..], b[1..]))
  {
    var x, y := a[1..], b[1..];
    if a[0] == b[0] {
      assert a < b <==> x < y;
      forall i | 0 <= i < |x| && i < |y| && x[..i] == y[..i]
        ensures a[..i + 1] == b[..i + 1]
      {
        assert a[..i + 1] == [a[0]] + x[..i] && b[..i + 1] == [b[0]] + y[..i];
      }
      forall i | 0 < i < |a| && i < |b| && a[..i] == b[..i]
        ensures x[..i - 1] == y[..i - 1]
      {
        assert x[..i - 1] == a[..i][1..] && y[..i - 1] == b[..i][1..];
      }
      forall i | 0 <= i < |x| && i < |y| && x[..i] == y[..i] && x[i] as int < y[i] as int
        ensures Before(a, b)
      {
        assert a[i + 1] == x[i] && b[i + 1] == y[i];
      }
      forall i | 0 <= i < |a| && i < |b| && a[..i] == b[..i] && a[i] as int < b[i] as int
        ensures Before(x, y)
      {
        assert i > 0 && a[i] == x[i - 1] && b[i] == y[i - 1];
      }
    } else {
      forall i | 0 < i < |a| && i < |b|
        ensures a[..i] != b[..i]
      {
        assert a[..i][0] == a[0] && b[..i][0] == b[0];
      }
      assert a[..0] == b[..0];
    }
  }

  /** strcmp(3) tells which text is before the other. */
  lemma {:induction false} StrcmpExact(a: Text, b: Text)
    ensures Strcmp(a, b) == if Before(a, b) then -1 else if a == b then 0 else 1
    ensures Strcmp(a, b) == 1 <==> Before(b, a)
    decreases a
  {
    if a != [] && b != [] {
      BeforeFirst(a, b);
      BeforeFirst(b, a);
      assert a == [a[0]] + a[1..] && b == [b[0]] + b[1..];
      StrcmpExact(a[1..], b[1..]);
    }
  }

  ghost predicate TextsInOrder(v: seq<Text>, descending: bool) {
    forall i, j :: 0 <= i < j < |v| ==> if descending then !Before(v[i], v[j]) else !Before(v[j], v[i])
  }

  lemma TextsSorted(v: seq<Text>, descending: bool)
    requires forall i :: 0 <= i < |v| ==> '\0' !in v[i]
    ensures Sorted(Flags(descending, false), v) <==> TextsInOrder(v, descending)
  {
    var f := Flags(descending, false);
    forall i, j | 0 <= i < j < |v|
      ensures OutOfOrder(f, v[i], v[j]) <==> if descending then Before(v[i], v[j]) else Before(v[j], v[i])
    {
      StrcmpExact(v[i], v[j]);
    }
  }

  /** A lexicographic sort rotates the texts, and leaves them in order exactly if they were, or
      come into order when the first goes to the end. */
  lemma TextSort(v: seq<Text>, descending: bool) returns (k: nat)
    requires forall i :: 0 <= i < |v| ==> '\0' !in v[i]
    ensures k <= |v| && AsSorted(Flags(descending, false), v) == (Success, v[k..] + v[..k])
    ensures TextsInOrder(v[k..] + v[..k], descending) <==>
            TextsInOrder(v, descending) || (v != [] && TextsInOrder(v[1..] + [v[0]], descending))
  {
    k := Turn(Flags(descending, false), v);
    TextsSorted(v, descending);
    TextsSorted(v[k..] + v[..k], descending);
    if v != [] {
      TextsSorted(v[1..] + [v[0]], descending);
    }
  }

  /** The sort of comparable values is a rotation, which is sorted exactly if the values were, or
      the rotation by one is. */
  lemma Turn(f: Flags, v: seq<Text>) returns (k: nat)
    requires Comparable(f, v)
    ensures k <= |v| && AsSorted(f, v) == (Success, v[k..] + v[..k])
    ensures Sorted(f, v[k..] + v[..k]) <==> Sorted(f, v) || (v != [] && Sorted(f, v[1..] + [v[0]]))
  {
    SortExact(f, v);
    if v != [] {
      FrontLast(f, v);
    }
    if |v| < 2 {
      k := 0;
      assert v[0..] + v[..0] == v;
    } else {
      k := FirstStop(f, v, 0);
    }
  }

  // ----- numbers

  const DIGITS: Text := "0123456789"

  /** The decimal numeral of a number. */
  function Numeral(n: nat): Text {
    if n < 10 then [DIGITS[n]] else Numeral(n / 10) + [DIGITS[n % 10]]
  }

  function Zeros(z: nat): Text { seq(z, _ => '0') }

  predicate Blank(w: Text) {
    forall i {:trigger w[i]} :: 0 <= i < |w| ==>
      w[i] == ' ' || w[i] == '\t' || w[i] == '\n' || w[i] as int == 11 || w[i] as int == 12 || w[i] == '\r'
  }

  /** White space, a sign or none, and the numeral of `n` behind any number of zeros. */
  predicate Spells(s: Text, w: Text, sign: Text, z: nat, n: nat) {
    Blank(w) && IsSign(sign) && s == w + sign + Zeros(z) + Numeral(n)
  }

  /** The number that 64 bits make of it, if 32 bits are enough for that. */
  ghost predicate Reads(s: Text, m: nat) {
    m <= 4294967295 && exists w, sign, z: nat, n: nat ::
      Spells(s, w, sign, z, n) && n <= 18446744073709551615 &&
      m == if sign == "-" && n > 0 then 18446744073709551616 - n else n
  }

  lemma DigitOf(n: nat)
    requires n < 10
    ensures '0' <= DIGITS[n] <= '9' && DIGITS[n] as int - '0' as int == n
  {
  }

  lemma DigitsSnoc(d: Text, c: Byte)
    ensures IsDigits(d + [c]) <==> IsDigits(d) && '0' <= c <= '9'
    ensures IsDigits(d) && '0' <= c <= '9' ==>
              IsDigits(d + [c]) && DecimalValue(d + [c]) == 10 * DecimalValue(d) + (c as int - '0' as int)
  {
    var e := d + [c];
    assert e[|d|] == c && e[..|d|] == d && forall i :: 0 <= i < |d| ==> e[i] == d[i];
  }

  lemma {:induction false} NumeralValue(n: nat, z: nat)
    ensures IsDigits(Zeros(z) + Numeral(n)) && DecimalValue(Zeros(z) + Numeral(n)) == n
    decreases n
  {
    DigitOf(n % 10);
    if n < 10 {
      ZerosValue(z);
      DigitsSnoc(Zeros(z), DIGITS[n]);
    } else {
      NumeralValue(n / 10, z);
      DigitsSnoc(Zeros(z) + Numeral(n / 10), DIGITS[n % 10]);
      assert Zeros(z) + Numeral(n) == Zeros(z) + Numeral(n / 10) + [DIGITS[n % 10]];
    }
  }

  lemma {:induction false} ZerosValue(z: nat)
    ensures IsDigits(Zeros(z)) && DecimalValue(Zeros(z)) == 0
  {
    if z > 0 {
      ZerosValue(z - 1);
      DigitsSnoc(Zeros(z - 1), '0');
      assert Zeros(z) == Zeros(z - 1) + ['0'];
    }
  }

  /** One digit more. */
  lemma NextDigit(z: nat, n: nat, x: nat, c: Byte) returns (y: nat)
    requires x < 10 && c == DIGITS[x]
    ensures Zeros(z) + Numeral(n) + [c] == Zeros(y) + Numeral(10 * n + x)
  {
    if n == 0 {
      y := z + 1;
      assert Zeros(y) == Zeros(z) + ['0'] && Numeral(0) == ['0'];
    } else {
      y := z;
      LastDigit(n, x);
      assert Zeros(z) + Numeral(n) + [c] == Zeros(z) + (Numeral(n) + [c]);
    }
  }

  lemma LastDigit(n: nat, x: nat)
    requires n > 0 && x < 10
    ensures Numeral(10 * n + x) == Numeral(n) + [DIGITS[x]]
  {
  }

  lemma DigitIs(c: Byte, x: nat)
    requires x == c as int - '0' as int && x < 10
    ensures c == DIGITS[x]
  {
    DigitOf(x);
  }

  /** Digits are the numeral of their value behind zeros. */
  lemma {:induction false} DigitsSpell(d: Text) returns (z: nat)
    requires d != [] && IsDigits(d)
    ensures d == Zeros(z) + Numeral(DecimalValue(d))
    decreases |d|
  {
    var e, c := d[..|d| - 1], d[|d| - 1];
    var x: nat := c as int - '0' as int;
    assert d == e + [c];
    DigitsSnoc(e, c);
    DigitIs(c, x);
    if e == [] {
      z := 0;
      assert Zeros(0) + [c] == [c] == d;
    } else {
      var y := DigitsSpell(e);
      z := NextDigit(y, DecimalValue(e), x, c);
    }
  }

  lemma {:induction false} SkipBlank(w: Text, t: Text)
    requires Blank(w) && (t == [] || !IsSpace(t[0]))
    ensures SkipSpace(w + t) == t
  {
    if w == [] {
      assert w + t == t;
    } else {
      assert (w + t)[1..] == w[1..] + t;
      SkipBlank(w[1..], t);
    }
  }

  lemma {:induction false} Skipped(s: Text) returns (w: Text)
    ensures Blank(w) && s == w + SkipSpace(s)
  {
    if s != [] && IsSpace(s[0]) {
      var rest := Skipped(s[1..]);
      w := [s[0]] + rest;
      assert s == [s[0]] + s[1..];
    } else {
      w := [];
    }
  }

  predicate IsSign(sign: Text) { sign == [] || sign == ['+'] || sign == ['-'] }

  lemma SignInFront(sign: Text, d: Text)
    requires IsSign(sign) && d != [] && '0' <= d[0] <= '9'
    ensures Sign(sign + d) == sign && (sign + d)[|sign|..] == d && !IsSpace((sign + d)[0])
  {
  }

  lemma UlongParts(w: Text, sign: Text, d: Text)
    requires Blank(w) && IsSign(sign) && d != [] && '0' <= d[0] <= '9'
    ensures ToUlong(w + sign + d) == FromDigits(sign, d)
  {
    SignInFront(sign, d);
    assert w + sign + d == w + (sign + d);
    SkipBlank(w, sign + d);
  }

  lemma SpelledReads(s: Text, w: Text, sign: Text, z: nat, n: nat)
    requires Spells(s, w, sign, z, n)
    ensures ToUlong(s) == if n > 18446744073709551615 then None
                          else Some(if sign == "-" && n > 0 then 18446744073709551616 - n else n)
  {
    NumeralValue(n, z);
    var d := Zeros(z) + Numeral(n);
    assert s == w + sign + d;
    assert '0' <= d[0] <= '9';
    UlongParts(w, sign, d);
  }

  lemma ReadSpelled(s: Text) returns (w: Text, sign: Text, z: nat, n: nat)
    requires ToUlong(s).Some?
    ensures Spells(s, w, sign, z, n)
  {
    w := Skipped(s);
    var t := SkipSpace(s);
    sign := Sign(t);
    var d := t[|sign|..];
    z := DigitsSpell(d);
    n := DecimalValue(d);
    Together(s, w, t, sign, d, Zeros(z), Numeral(n));
  }

  lemma Together(s: Text, w: Text, t: Text, sign: Text, d: Text, x: Text, y: Text)
    requires s == w + t && |sign| <= |t| && sign == t[..|sign|] && d == t[|sign|..] && d == x + y
    ensures s == w + sign + x + y
  {
    assert t == sign + d;
  }

  /** str_to_uint32 reads exactly the spellings of numbers. */
  lemma NumberExact(s: Text, m: nat)
    requires '\0' !in s
    ensures ToUint32(s) == Some(m) <==> Reads(s, m)
  {
    if ToUint32(s) == Some(m) {
      var w, sign, z, n := ReadSpelled(s);
      SpelledReads(s, w, sign, z, n);
    }
    if Reads(s, m) {
      var w, sign, z: nat, n: nat :| Spells(s, w, sign, z, n) && n <= 18446744073709551615 &&
        m == if sign == "-" && n > 0 then 18446744073709551616 - n else n;
      SpelledReads(s, w, sign, z, n);
    }
  }

  predicate NumbersInOrder(n: seq<nat>, descending: bool) {
    forall i, j :: 0 <= i < j < |n| ==> if descending then n[i] >= n[j] else n[i] <= n[j]
  }

  /** The values spell the numbers. */
  ghost predicate Spelled(v: seq<Text>, n: seq<nat>) {
    |v| == |n| && forall i :: 0 <= i < |v| ==> '\0' !in v[i] && Reads(v[i], n[i])
  }

  predicate Converts(v: seq<Text>, n: seq<nat>) {
    |v| == |n| && forall i :: 0 <= i < |v| ==> ToUint32(v[i]) == Some(n[i])
  }

  lemma SpelledConverts(v: seq<Text>, n: seq<nat>)
    requires Spelled(v, n)
    ensures Converts(v, n)
  {
    forall i | 0 <= i < |v|
      ensures ToUint32(v[i]) == Some(n[i])
    {
      NumberExact(v[i], n[i]);
    }
  }

  lemma ConvertsTurned(v: seq<Text>, n: seq<nat>, k: nat)
    requires Converts(v, n) && k <= |v|
    ensures Converts(v[k..] + v[..k], n[k..] + n[..k])
  {
  }

  lemma NumbersSorted(v: seq<Text>, n: seq<nat>, descending: bool)
    requires Converts(v, n)
    ensures var f := Flags(descending, true);
            Comparable(f, v) && (Sorted(f, v) <==> NumbersInOrder(n, descending))
  {
  }

  /** A numeric sort of values that spell numbers rotates them, and leaves the numbers in order
      exactly if they were, or come into order when the first goes to the end. */
  lemma NumericSort(v: seq<Text>, n: seq<nat>, descending: bool) returns (k: nat)
    requires Spelled(v, n)
    ensures k <= |v| == |n| && AsSorted(Flags(descending, true), v) == (Success, v[k..] + v[..k])
    ensures NumbersInOrder(n[k..] + n[..k], descending) <==>
            NumbersInOrder(n, descending) || (n != [] && NumbersInOrder(n[1..] + [n[0]], descending))
  {
    SpelledConverts(v, n);
    var w, m := FrontBehind(v), FrontBehind(n);
    FrontConverts(v, n);
    NumbersSorted(v, n, descending);
    NumbersSorted(w, m, descending);
    k := Turn(Flags(descending, true), v);
    ConvertsTurned(v, n, k);
    NumbersSorted(v[k..] + v[..k], n[k..] + n[..k], descending);
  }

  function FrontBehind<T>(v: seq<T>): seq<T> {
    if v == [] then [] else v[1..] + [v[0]]
  }

  lemma FrontConverts(v: seq<Text>, n: seq<nat>)
    requires Converts(v, n)
    ensures Converts(FrontBehind(v), FrontBehind(n))
  {
  }

  lemma NumeralReads(n: nat)
    requires n <= 4294967295
    ensures Reads(Numeral(n), n)
  {
    assert Zeros(0) == [] && [] + "" + Zeros(0) + Numeral(n) == Numeral(n);
    assert Spells(Numeral(n), [], "", 0, n);
  }

  lemma NumeralConverts(s: Text, n: nat)
    requires s == Numeral(n) && n <= 4294967295 && '\0' !in s
    ensures ToUint32(s) == Some(n)
  {
    NumeralReads(n);
    NumberExact(s, n);
  }

  lemma Hundred()
    ensures Numeral(99) == "99" && Numeral(100) == "100"
  {
    assert Numeral(9) == "9" && Numeral(99) == Numeral(9) + "9";
    assert Numeral(1) == "1" && Numeral(10) == Numeral(1) + "0" && Numeral(100) == Numeral(10) + "0";
  }

  lemma TwoSorted(f: Flags, a: Text, b: Text)
    requires Compare(f, a, b).Some?
    ensures AsSorted(f, [a, b]) == (Success, if OutOfOrder(f, a, b) then [b, a] else [a, b])
  {
    var v := [a, b];
    assert v[1..] + v[..1] == [b, a] && v[0..] + v[..0] == v;
  }

  /** 99 and 100 are in order as numbers. */
  lemma NinetyNineAndHundred()
    ensures AsSorted(Flags(false, true), ["99", "100"]) == (Success, ["99", "100"])
    ensures AsSorted(Flags(true, true), ["99", "100"]) == (Success, ["100", "99"])
  {
    Hundred();
    NumeralConverts("99", 99);
    NumeralConverts("100", 100);
    TwoSorted(Flags(false, true), "99", "100");
    TwoSorted(Flags(true, true), "99", "100");
  }
}
