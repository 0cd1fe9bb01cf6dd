/** string_t of string.c: a NUL-terminated buffer with its length and its size. */
module Buffers {
  import opened Bytes
  import Codec
  import opened Lines

  const STRING_MAX := 536870912
  const SIZE_SPAN := 0x1_0000_0000_0000_0000  // size_t arithmetic wraps here

  class Buffer {
    var value: array<Byte>
    var size: nat
    var len: nat

    /** The length stays below the size of the memory block, and both below STRING_MAX. */
    ghost predicate Sized()
      reads this
    {
      size == value.Length && len < size <= STRING_MAX
    }

    /** A NUL at the length, and none before it. */
    ghost predicate Valid()
      reads this, value
    {
      Sized() && value[len] == NUL && NUL !in value[..len]
    }

    ghost function Contents(): (s: Text)
      reads this, value
      requires Sized()
    {
      value[..len]
    }

    /** str_new. */
    constructor ()
      ensures Valid() && Contents() == [] && fresh(value) && size == 16
    {
      value := new Byte[16];
      size, len := 16, 0;
      new;
      for i := 0 to 8
        invariant value.Length == 16 && fresh(value) && size == 16 && len == 0
        invariant i > 0 ==> value[0] == NUL
      {
        value[i] := NUL;
      }
    }

    /** str_truncate. */
    method Truncate()
      requires Valid()
      modifies this`len, value
      ensures Valid() && Contents() == []
    {
      len := 0;
      if size > 0 {
        value[0] := NUL;
      }
    }

    /** str_resize: the block grows, the contents stay. */
    method Resize(newSize: nat) returns (r: Status)
      requires Valid()
      modifies this`value, this`size, value
      ensures Valid() && Contents() == old(Contents()) && (value == old(value) || fresh(value))
      ensures r == if 0 < newSize <= STRING_MAX then Success else Failure
      ensures size == if r == Success && newSize > old(size) then newSize else old(size)
      ensures value[..len + 1] == old(value[..len + 1])
      ensures r == Failure ==> value == old(value) && value[..] == old(value[..])
    {
      if newSize == 0 || newSize > STRING_MAX {
        return Failure;
      }
      if size < newSize {
        var c := new Byte[newSize];
        for i := 0 to size
          invariant value == old(value) && size == old(size) && value[..] == old(value[..])
          invariant c[..i] == value[..i]
        {
          c[i] := value[i];
        }
        value := c;
        assert value[..len + 1] == old(value[..len + 1]);
        value[newSize - 1] := NUL;
        size := newSize;
        assert value[..len + 1] == old(value[..len + 1]);
        assert value[len] == value[..len + 1][len] == old(value[..len + 1])[len];
        assert value[..len] == value[..len + 1][..len] == old(value[..len + 1])[..len] == old(value[..len]);
      }
      r := Success;
    }

    /** str_set_len. */
    method SetLen(n: nat) returns (r: Status)
      requires Sized()
      modifies this`len, value
      ensures r == if n <= STRING_MAX && n < size then Success else Failure
      ensures r == Failure ==> len == old(len) && value[..] == old(value[..])
      ensures r == Success ==> len == n && value[..] == old(value[..])[n := NUL]
    {
      if n > STRING_MAX {
        return Failure;
      }
      if n >= size {
        return Failure;
      }
      len := n;
      value[n] := NUL;
      r := Success;
    }

    /** memcpy into the buffer. */
    method Fill(at: nat, s: Text)
      requires at + |s| <= value.Length
      modifies value
      ensures value[..] == old(value[..at]) + s + old(value[at + |s|..])
    {
      for i := 0 to |s|
        invariant value[..at + i] == old(value[..at]) + s[..i]
        invariant value[at + i..] == old(value[at + i..])
      {
        value[at + i] := s[i];
      }
    }

    /** str_cat: the text is appended, or nothing happens at all. The final str_set_len
        cannot fail, and neither can the overflow check. */
    method Cat(s: Text) returns (r: Status)
      requires Valid() && NUL !in s
      modifies this, value
      ensures Valid() && (value == old(value) || fresh(value))
      ensures r == if s == [] || old(len) + |s| < STRING_MAX then Success else Failure
      ensures size == if r == Success && old(len) + |s| + 1 > old(size) then old(len) + |s| + 1 else old(size)
      ensures Contents() == if r == Success then old(Contents()) + s else old(Contents())
      ensures r == Failure ==> value == old(value) && size == old(size) && value[..] == old(value[..])
    {
      if |s| == 0 {
        return Success;
      }
      if |s| >= STRING_MAX {
        return Failure;
      }
      var newSize := (len + |s| + 1) % SIZE_SPAN;
      if newSize <= len {
        return Failure;
      }
      if newSize > size {
        r := Resize(newSize);
        if r == Failure {
          return;
        }
      }
      r := AppendInPlace(s);
    }

    /** The copying part of str_cat, once the block is large enough. */
    method AppendInPlace(s: Text) returns (r: Status)
      requires Valid() && NUL !in s && len + |s| < size
      modifies this`len, value
      ensures r == Success && Valid() && Contents() == old(Contents()) + s
    {
      var end := len + |s|;
      Fill(len, s);
      assert value[..end] == old(Contents()) + s;
      value[end] := NUL;
      assert value[..end] == old(Contents()) + s;
      r := SetLen(end);
      assert value[..len] == old(Contents()) + s;
    }

    /** str_putc. */
    method Putc(c: Byte) returns (r: Status)
      requires Valid()
      modifies this, value
      ensures Valid() && (value == old(value) || fresh(value))
      ensures r == if c == NUL || old(len) + 1 < STRING_MAX then Success else Failure
      ensures size == if r == Success && c != NUL && old(len) + 2 > old(size) then old(len) + 2 else old(size)
      ensures Contents() == if r == Success then Codec.Putc(old(Contents()), c) else old(Contents())
    {
      r := Cat(CString([c, NUL]));
    }

    /** str_ncpy. A copy of exactly STRING_MAX characters passes the check of the length but
        not that of the size, and by then the old contents are gone. */
    method Ncpy(src: Text, n: nat) returns (r: Status)
      requires Valid() && n <= |src| && NUL !in src[..n]
      modifies this, value
      ensures Valid() && (value == old(value) || fresh(value))
      ensures r == if n < STRING_MAX then Success else Failure
      ensures size == if r == Success && n + 1 > old(size) then n + 1 else old(size)
      ensures Contents() == if n < STRING_MAX then src[..n] else if n == STRING_MAX then [] else old(Contents())
    {
      if n > STRING_MAX {
        return Failure;
      }
      Truncate();
      if n == 0 {
        return Success;
      }
      r := Resize(n + 1);
      if r == Failure {
        return;
      }
      Fill(0, src[..n]);
      assert value[..n] == src[..n];
      value[n] := NUL;
      assert value[..n] == src[..n];
      len := n;
    }

    /** str_cpy. */
    method Cpy(src: Text) returns (r: Status)
      requires Valid() && NUL !in src
      modifies this, value
      ensures Valid() && (value == old(value) || fresh(value))
      ensures r == if |src| < STRING_MAX then Success else Failure
      ensures size == if r == Success && |src| + 1 > old(size) then |src| + 1 else old(size)
      ensures Contents() == if r == Success then src else old(Contents())
    {
      if |src| >= STRING_MAX {
        return Failure;
      }
      assert src[..|src|] == src;
      r := Ncpy(src, |src|);
    }

    /** str_copy: a new block as large as the source's, but an empty source only truncates. */
    method Copy(src: Buffer) returns (r: Status)
      requires Valid() && src.Valid() && (src != this ==> src.value != value)
      modifies this, value
      ensures Valid() && (value == old(value) || fresh(value))
      ensures r == if src == this then Failure else Success
      ensures Contents() == old(src.Contents())
      ensures src != this ==> size == if old(src.len) == 0 then old(size) else src.size
    {
      if src == this {
        return Failure;
      }
      if src.len == 0 || src.size == 0 {
        Truncate();
        return Success;
      }
      var block := new Byte[src.size];
      for i := 0 to src.len + 1
        invariant block[..i] == src.value[..i]
      {
        block[i] := src.value[i];
      }
      assert block[..src.len] == block[..src.len + 1][..src.len] == src.value[..src.len + 1][..src.len] == src.Contents();
      assert block[src.len] == block[..src.len + 1][src.len] == NUL;
      value := block;
      size := src.size;
      len := src.len;
      r := Success;
    }

    /** str_move: copy, then truncate the source. */
    method Move(src: Buffer) returns (r: Status)
      requires Valid() && src.Valid() && (src != this ==> src.value != value)
      modifies this, value, src`len, src.value
      ensures Valid() && src.Valid() && (value == old(value) || fresh(value))
      ensures r == if src == this then Failure else Success
      ensures src != this ==> Contents() == old(src.Contents()) && src.Contents() == []
      ensures src == this ==> Contents() == old(Contents())
    {
      if src == this {
        return Failure;
      }
      r := Copy(src);
      src.Truncate();
    }

    /** str_append. */
    method Append(src: Buffer) returns (r: Status)
      requires Valid() && src.Valid() && (src != this ==> src.value != value)
      modifies this, value
      ensures Valid() && (value == old(value) || fresh(value))
      ensures r == if src != this && (old(src.len) == 0 || old(len) + old(src.len) < STRING_MAX) then Success else Failure
      ensures Contents() == if r == Success then old(Contents()) + old(src.Contents()) else old(Contents())
    {
      if src == this {
        return Failure;
      }
      r := Cat(src.value[..src.len]);
    }

    /** str_prepend. When the two do not fit together, the destination is left with the source. */
    method Prepend(src: Buffer) returns (r: Status)
      requires Valid() && src.Valid() && (src != this ==> src.value != value)
      modifies this, value
      ensures Valid() && (value == old(value) || fresh(value))
      ensures r == if src != this && (old(len) == 0 || old(src.len) + old(len) < STRING_MAX) then Success else Failure
      ensures Contents() == if src == this then old(Contents())
                            else if r == Success then old(src.Contents()) + old(Contents())
                            else old(src.Contents())
    {
      if src == this {
        return Failure;
      }
      var buf := new Buffer();
      r := buf.Copy(this);
      r := Copy(src);
      r := Append(buf);
    }

    /** str_truncate_at. */
    method TruncateAt(position: nat) returns (r: Status)
      requires Valid()
      modifies this`len, value
      ensures Valid()
      ensures r == if position > old(len) then Failure else Success
      ensures Contents() == if r == Success then old(Contents())[..position] else old(Contents())
    {
      if position > len {
        return Failure;
      }
      ghost var s := Contents();
      value[position] := NUL;
      len := position;
      assert value[..len] == s[..position];
      r := Success;
    }

    /** str_set_terminator. */
    method SetTerminator(c: Byte)
      requires Valid()
      modifies this, value
      ensures Valid() && (value == old(value) || fresh(value))
      ensures var s := old(Contents());
              Contents() == if s == [] then Codec.Putc([], c) else if c == NUL then s[..|s| - 1] else s[|s| - 1 := c]
    {
      ghost var s := Contents();
      if len > 0 {
        value[len - 1] := c;
        if c == NUL {
          len := len - 1;
          assert value[..len] == s[..|s| - 1];
        } else {
          assert value[..len] == s[|s| - 1 := c];
        }
      } else {
        var _ := Putc(c);
      }
    }

    /** str_chomp. */
    method ChompInPlace()
      requires Valid()
      modifies this`len, value
      ensures Valid() && Contents() == Chomp(old(Contents()))
    {
      if len == 0 {
        return;
      }
      ghost var s := Contents();
      var cp := len - 1;
      if value[cp] == LF {
        value[cp] := NUL;
        cp := cp - 1;
        len := len - 1;
        assert value[..len] == s[..|s| - 1];
      }
      ghost var t := Contents();
      if len > 0 && value[cp] == CR {
        value[cp] := NUL;
        len := len - 1;
        assert value[..len] == t[..|t| - 1];
      }
    }

    /** str_swap. */
    method Swap(other: Buffer)
      requires Valid() && other.Valid()
      modifies this, other
      ensures Valid() && other.Valid() && value == old(other.value) && other.value == old(value)
      ensures Contents() == old(other.Contents()) && other.Contents() == old(Contents())
    {
      var v, s, l := value, size, len;
      value, size, len := other.value, other.size, other.len;
      other.value, other.size, other.len := v, s, l;
    }
  }

  // ----- runs of operations on a pool of strings

  /** An operation on string `i` of the pool, with string `j` as its source. */
  datatype BufferOp =
    | CatOp(i: nat, s: Text)
    | PutcOp(i: nat, c: Byte)
    | CpyOp(i: nat, s: Text)
    | NcpyOp(i: nat, s: Text, n: nat)
    | TruncateOp(i: nat)
    | TruncateAtOp(i: nat, position: nat)
    | ResizeOp(i: nat, newSize: nat)
    | TerminatorOp(i: nat, c: Byte)
    | ChompOp(i: nat)
    | CopyOp(i: nat, j: nat)
    | MoveOp(i: nat, j: nat)
    | AppendOp(i: nat, j: nat)
    | PrependOp(i: nat, j: nat)
    | SwapOp(i: nat, j: nat)

  predicate HasSource(op: BufferOp) {
    op.CopyOp? || op.MoveOp? || op.AppendOp? || op.PrependOp? || op.SwapOp?
  }

  /** The operation names strings of the pool and C strings. */
  predicate TextOp(op: BufferOp, size: nat) {
    && op.i < size && (HasSource(op) ==> op.j < size)
    && (op.CatOp? || op.CpyOp? ==> NUL !in op.s)
    && (op.NcpyOp? ==> op.n <= |op.s| && NUL !in op.s[..op.n])
  }

  /** The text of string `i` after an operation without a source. */
  function OwnEffect(op: BufferOp, t: Text): Text
    requires op.NcpyOp? ==> op.n <= |op.s|
  {
    match op
    case CatOp(_, s) => if |t| + |s| < STRING_MAX then t + s else t
    case PutcOp(_, c) => if |t| + 1 < STRING_MAX then Codec.Putc(t, c) else t
    case CpyOp(_, s) => if |s| < STRING_MAX then s else t
    case NcpyOp(_, s, n) => if n < STRING_MAX then s[..n] else if n == STRING_MAX then [] else t
    case TruncateOp(_) => []
    case TruncateAtOp(_, p) => if p <= |t| then t[..p] else t
    case TerminatorOp(_, c) => if t == [] then Codec.Putc([], c) else if c == NUL then t[..|t| - 1] else t[|t| - 1 := c]
    case ChompOp(_) => Chomp(t)
    case _ => t
  }

  /** The texts of string `i` and of its source after an operation on two different strings. */
  function PairEffect(op: BufferOp, t: Text, u: Text): (Text, Text) {
    match op
    case CopyOp(_, _) => (u, u)
    case MoveOp(_, _) => (u, [])
    case AppendOp(_, _) => (if |t| + |u| < STRING_MAX then t + u else t, u)
    case PrependOp(_, _) => (if |t| + |u| < STRING_MAX then u + t else u, u)
    case SwapOp(_, _) => (u, t)
    case _ => (t, u)
  }

  /** The pool after an operation; a string is refused as its own source. */
  function Effect(op: BufferOp, pool: seq<Text>): (r: seq<Text>)
    requires TextOp(op, |pool|)
    ensures |r| == |pool|
  {
    if !HasSource(op) then pool[op.i := OwnEffect(op, pool[op.i])]
    else if op.i == op.j then pool
    else
      var (t, u) := PairEffect(op, pool[op.i], pool[op.j]);
      pool[op.i := t][op.j := u]
  }

  function Effects(ops: seq<BufferOp>, pool: seq<Text>): seq<Text>
    requires forall k :: 0 <= k < |ops| ==> TextOp(ops[k], |pool|)
    decreases |ops|
  {
    if ops == [] then pool else Effects(ops[1..], Effect(ops[0], pool))
  }

  predicate Bounded(pool: seq<Text>) {
    forall k :: 0 <= k < |pool| ==> |pool[k]| < STRING_MAX && NUL !in pool[k]
  }

  /** No run of operations leaves the bounds or puts a NUL into a text. */
  lemma {:induction false} RunsStayBounded(ops: seq<BufferOp>, pool: seq<Text>)
    requires Bounded(pool) && forall k :: 0 <= k < |ops| ==> TextOp(ops[k], |pool|)
    ensures |Effects(ops, pool)| == |pool| && Bounded(Effects(ops, pool))
    decreases |ops|
  {
    if ops != [] {
      RunsStayBounded(ops[1..], Effect(ops[0], pool));
    }
  }

  /** The longest text a string can hold has 536870911 characters: any text up to that length can
      be appended to a new string, and no longer one. */
  lemma LongestText(t: Text)
    requires '\0' !in t
    ensures Effects([CatOp(0, t)], [[]]) == [if |t| <= 536870911 then t else []]
  {
    assert [CatOp(0, t)][1..] == [];
    assert [] + t == t;
  }

  /** The strings are distinct, in order, and have blocks of their own. */
  ghost predicate Pool(pool: seq<Buffer>)
    reads pool, set k | 0 <= k < |pool| :: pool[k].value
  {
    && (forall k :: 0 <= k < |pool| ==> pool[k].Valid())
    && (forall k, m :: 0 <= k < m < |pool| ==> pool[k] != pool[m] && pool[k].value != pool[m].value)
  }

  ghost function Texts(pool: seq<Buffer>): seq<Text>
    requires Pool(pool)
    reads pool, set k | 0 <= k < |pool| :: pool[k].value
  {
    seq(|pool|, k requires 0 <= k < |pool| && pool[k].Sized() reads pool, set m | 0 <= m < |pool| :: pool[m].value =>
          pool[k].Contents())
  }

  /** Work on one or two strings leaves the others as they were. */
  twostate lemma OthersKept(pool: seq<Buffer>, new i: nat, new j: nat)
    requires old(Pool(pool)) && i < |pool| && j < |pool|
    requires pool[i].Valid() && pool[j].Valid() && (i != j ==> pool[i].value != pool[j].value)
    requires forall k :: 0 <= k < |pool| && k != i && k != j ==>
               unchanged(pool[k]) && unchanged(pool[k].value) && pool[i].value != pool[k].value && pool[j].value != pool[k].value
    ensures Pool(pool) && Texts(pool) == old(Texts(pool))[i := pool[i].Contents()][j := pool[j].Contents()]
  {
  }

  method PerformOne(b: Buffer, op: BufferOp)
    requires b.Valid() && !HasSource(op) && TextOp(op, op.i + 1)
    modifies b, b.value
    ensures b.Valid() && b.Contents() == OwnEffect(op, old(b.Contents()))
    ensures b.value == old(b.value) || fresh(b.value)
  {
    match op
    case CatOp(_, s) => var _ := b.Cat(s);
    case PutcOp(_, c) => var _ := b.Putc(c);
    case CpyOp(_, s) => var _ := b.Cpy(s);
    case NcpyOp(_, s, n) => var _ := b.Ncpy(s, n);
    case TruncateOp(_) => b.Truncate();
    case TruncateAtOp(_, p) => var _ := b.TruncateAt(p);
    case ResizeOp(_, n) => var _ := b.Resize(n);
    case TerminatorOp(_, c) => b.SetTerminator(c);
    case ChompOp(_) => b.ChompInPlace();
  }

  method PerformTwo(b: Buffer, src: Buffer, op: BufferOp)
    requires b.Valid() && src.Valid() && (src != b ==> src.value != b.value)
    requires HasSource(op)
    modifies b, b.value, src, src.value
    ensures b.Valid() && src.Valid() && (src != b ==> src.value != b.value)
    ensures if b == src then b.Contents() == old(b.Contents())
            else (b.Contents(), src.Contents()) == PairEffect(op, old(b.Contents()), old(src.Contents()))
    ensures b.value == old(b.value) || b.value == old(src.value) || fresh(b.value)
    ensures src == b || src.value == old(src.value) || src.value == old(b.value)
  {
    match op
    case CopyOp(_, _) => var _ := b.Copy(src);
    case MoveOp(_, _) => var _ := b.Move(src);
    case AppendOp(_, _) => var _ := b.Append(src);
    case PrependOp(_, _) => var _ := b.Prepend(src);
    case SwapOp(_, _) => b.Swap(src);
  }

  /** One operation on the strings it names. */
  method PerformInPool(pool: seq<Buffer>, op: BufferOp)
    requires Pool(pool) && TextOp(op, |pool|)
    modifies pool, set k | 0 <= k < |pool| :: pool[k].value
    ensures Pool(pool) && Texts(pool) == Effect(op, old(Texts(pool)))
    ensures forall k :: 0 <= k < |pool| ==>
              fresh(pool[k].value) || exists m :: 0 <= m < |pool| && pool[k].value == old(pool[m].value)
  {
    if HasSource(op) {
      PerformBetween(pool, op);
    } else {
      PerformAt(pool, op);
    }
  }

  method PerformAt(pool: seq<Buffer>, op: BufferOp)
    requires Pool(pool) && TextOp(op, |pool|) && !HasSource(op)
    modifies pool[op.i], pool[op.i].value
    ensures Pool(pool) && Texts(pool) == old(Texts(pool))[op.i := OwnEffect(op, old(pool[op.i].Contents()))]
    ensures forall k :: 0 <= k < |pool| ==> fresh(pool[k].value) || pool[k].value == old(pool[k].value)
  {
    PerformOne(pool[op.i], op);
    OthersKept(pool, op.i, op.i);
  }

  method PerformBetween(pool: seq<Buffer>, op: BufferOp)
    requires Pool(pool) && TextOp(op, |pool|) && HasSource(op)
    modifies pool[op.i], pool[op.i].value, pool[op.j], pool[op.j].value
    ensures Pool(pool) && Texts(pool) == Effect(op, old(Texts(pool)))
    ensures forall k :: 0 <= k < |pool| ==>
              fresh(pool[k].value) || exists m :: 0 <= m < |pool| && pool[k].value == old(pool[m].value)
  {
    var b, src := pool[op.i], pool[op.j];
    PerformTwo(b, src, op);
    OthersKept(pool, op.i, op.j);
  }

  method NewPool(n: nat) returns (pool: seq<Buffer>)
    ensures |pool| == n && Pool(pool) && Texts(pool) == seq(n, _ => [])
    ensures forall k :: 0 <= k < n ==> fresh(pool[k]) && fresh(pool[k].value)
  {
    pool := [];
    for i := 0 to n
      invariant |pool| == i && Pool(pool)
      invariant forall k :: 0 <= k < i ==> fresh(pool[k]) && fresh(pool[k].value) && pool[k].Contents() == []
    {
      var b := new Buffer();
      pool := pool + [b];
    }
  }

  /** Any run of operations on a pool of new strings has the effect of the operations on plain
      texts. */
  method RunOps(n: nat, ops: seq<BufferOp>) returns (pool: seq<Buffer>)
    requires forall k :: 0 <= k < |ops| ==> TextOp(ops[k], n)
    ensures |pool| == n && Pool(pool) && Texts(pool) == Effects(ops, seq(n, _ => []))
  {
    pool := NewPool(n);
    for i := 0 to |ops|
      invariant |pool| == n && Pool(pool) && forall k :: 0 <= k < n ==> fresh(pool[k]) && fresh(pool[k].value)
      invariant Effects(ops[i..], Texts(pool)) == Effects(ops, seq(n, _ => []))
    {
      assert ops[i..][0] == ops[i] && ops[i..][1..] == ops[i + 1..];
      PerformInPool(pool, ops[i]);
    }
  }
}
