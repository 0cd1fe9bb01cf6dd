/** The locals of a function: which of them are created and destroyed, and when. */
module Locals {
  import opened Bytes
  import opened Translator
  import opened Lowering
  import opened ExitDiscipline

  // ----- which ones

  /** A declaration and a variable in it. */
  type Place = (nat, nat)

  predicate Earlier(p: Place, q: Place) { p.0 < q.0 || (p.0 == q.0 && p.1 < q.1) }

  /** A variable without an initializer, in a declaration of an object type. */
  predicate IsAuto(decls: seq<Line>, p: Place) {
    && p.0 < |decls| && decls[p.0].Decl? && decls[p.0].natural
    && p.1 < |decls[p.0].vars| && !decls[p.0].vars[p.1].initialized
  }

  /** The names of all such variables, in the order of their places. */
  ghost predicate Autos(decls: seq<Line>, names: seq<string>, at: seq<Place>) {
    && |at| == |names|
    && (forall k :: 0 <= k < |at| ==> IsAuto(decls, at[k]) && names[k] == decls[at[k].0].vars[at[k].1].name)
    && (forall j, k :: 0 <= j < k < |at| ==> Earlier(at[j], at[k]))
    && (forall p: Place :: IsAuto(decls, p) ==> p in at)
  }

  /** The indices of the variables of a declaration without an initializer. */
  function AutoIndices(vars: seq<Var>, from: nat): seq<nat>
    requires from <= |vars|
    decreases |vars| - from
  {
    if from == |vars| then []
    else (if vars[from].initialized then [] else [from]) + AutoIndices(vars, from + 1)
  }

  lemma {:induction false} AutoIndicesNamed(vars: seq<Var>, from: nat)
    requires from <= |vars|
    ensures var idx, names := AutoIndices(vars, from), AutoVars(vars[from..]);
            && |idx| == |names|
            && forall k :: 0 <= k < |idx| ==>
                 from <= idx[k] < |vars| && !vars[idx[k]].initialized && names[k] == vars[idx[k]].name
    decreases |vars| - from
  {
    if from < |vars| {
      var next := from + 1;
      AutoIndicesNamed(vars, next);
      assert vars[from..][1..] == vars[next..];
    }
  }

  lemma {:induction false} AutoIndicesRise(vars: seq<Var>, from: nat)
    requires from <= |vars|
    ensures var idx := AutoIndices(vars, from); forall j, k :: 0 <= j < k < |idx| ==> idx[j] < idx[k]
    decreases |vars| - from
  {
    if from < |vars| {
      var next := from + 1;
      AutoIndicesRise(vars, next);
      AutoIndicesNamed(vars, next);
    }
  }

  lemma {:induction false} AutoIndicesAll(vars: seq<Var>, from: nat, i: nat)
    requires from <= i < |vars| && !vars[i].initialized
    ensures i in AutoIndices(vars, from)
    decreases i - from
  {
    if from < i {
      AutoIndicesAll(vars, from + 1, i);
    }
  }

  lemma VarPlaces(vars: seq<Var>) returns (idx: seq<nat>)
    ensures |idx| == |AutoVars(vars)|
    ensures forall k :: 0 <= k < |idx| ==>
              idx[k] < |vars| && !vars[idx[k]].initialized && AutoVars(vars)[k] == vars[idx[k]].name
    ensures forall j, k :: 0 <= j < k < |idx| ==> idx[j] < idx[k]
    ensures forall i :: 0 <= i < |vars| && !vars[i].initialized ==> i in idx
  {
    idx := AutoIndices(vars, 0);
    AutoIndicesNamed(vars, 0);
    AutoIndicesRise(vars, 0);
    assert vars[0..] == vars;
    forall i | 0 <= i < |vars| && !vars[i].initialized
      ensures i in idx
    {
      AutoIndicesAll(vars, 0, i);
    }
  }

  /** Places in the first declaration, and in the others. */
  function InFirst(idx: seq<nat>): seq<Place> { seq(|idx|, k requires 0 <= k < |idx| => (0, idx[k])) }

  function InOthers(rest: seq<Place>): seq<Place> {
    seq(|rest|, k requires 0 <= k < |rest| => (rest[k].0 + 1, rest[k].1))
  }

  lemma OthersNamed(decls: seq<Line>, rest: seq<Place>, others: seq<string>, k: nat)
    requires decls != [] && Autos(decls[1..], others, rest) && k < |rest|
    ensures var p := InOthers(rest)[k]; IsAuto(decls, p) && others[k] == decls[p.0].vars[p.1].name
  {
    assert IsAuto(decls[1..], rest[k]);
  }

  lemma PlacesOrdered(idx: seq<nat>, rest: seq<Place>, j: nat, k: nat)
    requires j < k < |idx| + |rest|
    requires forall j, k :: 0 <= j < k < |idx| ==> idx[j] < idx[k]
    requires forall j, k :: 0 <= j < k < |rest| ==> Earlier(rest[j], rest[k])
    ensures var at := InFirst(idx) + InOthers(rest); Earlier(at[j], at[k])
  {
    if j >= |idx| {
      assert Earlier(rest[j - |idx|], rest[k - |idx|]);
    }
  }

  lemma PlaceFound(decls: seq<Line>, idx: seq<nat>, rest: seq<Place>, others: seq<string>, p: Place)
    requires decls != [] && Autos(decls[1..], others, rest) && IsAuto(decls, p)
    requires p.0 == 0 ==> p.1 in idx
    ensures p in InFirst(idx) + InOthers(rest)
  {
    var at := InFirst(idx) + InOthers(rest);
    if p.0 == 0 {
      var k :| 0 <= k < |idx| && idx[k] == p.1;
      assert at[k] == p;
    } else {
      var q := (p.0 - 1, p.1);
      assert IsAuto(decls[1..], q);
      var k :| 0 <= k < |rest| && rest[k] == q;
      assert at[|idx| + k] == p;
    }
  }

  /** The places of the first declaration and, moved on by one, those of the others. */
  lemma PlacesTogether(decls: seq<Line>, idx: seq<nat>, names: seq<string>, rest: seq<Place>, others: seq<string>)
    requires decls != [] && |idx| == |names| && Autos(decls[1..], others, rest)
    requires forall k :: 0 <= k < |idx| ==> IsAuto(decls, (0, idx[k])) && names[k] == decls[0].vars[idx[k]].name
    requires forall j, k :: 0 <= j < k < |idx| ==> idx[j] < idx[k]
    requires forall i: nat :: IsAuto(decls, (0, i)) ==> i in idx
    ensures Autos(decls, names + others, InFirst(idx) + InOthers(rest))
  {
    var n, at := |idx|, InFirst(idx) + InOthers(rest);
    forall k | 0 <= k < |at|
      ensures IsAuto(decls, at[k]) && (names + others)[k] == decls[at[k].0].vars[at[k].1].name
    {
      if k >= n {
        OthersNamed(decls, rest, others, k - n);
      }
    }
    forall j, k | 0 <= j < k < |at|
      ensures Earlier(at[j], at[k])
    {
      PlacesOrdered(idx, rest, j, k);
    }
    forall p: Place | IsAuto(decls, p)
      ensures p in at
    {
      PlaceFound(decls, idx, rest, others, p);
    }
  }

  lemma {:induction false} AutosPlaced(decls: seq<Line>) returns (at: seq<Place>)
    ensures Autos(decls, AutoLocals(decls), at)
  {
    if decls == [] {
      at := [];
    } else {
      var rest := AutosPlaced(decls[1..]);
      if decls[0].Decl? && decls[0].natural {
        var idx := VarPlaces(decls[0].vars);
        PlacesTogether(decls, idx, AutoVars(decls[0].vars), rest, AutoLocals(decls[1..]));
        at := InFirst(idx) + InOthers(rest);
      } else {
        PlacesTogether(decls, [], [], rest, AutoLocals(decls[1..]));
        at := InFirst([]) + InOthers(rest);
      }
    }
  }

  predicate Neither(items: seq<Item>) { forall i :: 0 <= i < |items| ==> !items[i].New? && !items[i].Destroy? }

  lemma OneOfEach(a: seq<Item>, x: Item, b: seq<Item>, y: Item)
    requires Neither(a) && Neither(b) && x.New? && y.Destroy?
    ensures var code := a + [x] + (b + [y, ReturnRetval]);
            && |code| == |a| + |b| + 3 && code[|a|] == x && code[|code| - 2] == y
            && forall i :: 0 <= i < |code| ==> (code[i].New? <==> i == |a|) && (code[i].Destroy? <==> i == |code| - 2)
  {
    var code := a + [x] + (b + [y, ReturnRetval]);
    forall i | 0 <= i < |code|
      ensures (code[i].New? <==> i == |a|) && (code[i].Destroy? <==> i == |code| - 2)
    {
      if |a| < i <= |a| + |b| {
        assert code[i] == b[i - |a| - 1];
      }
    }
  }

  /** The code emitted for a function has one item that creates and one that destroys, and both
      name exactly those variables. */
  lemma CreatedAndDestroyed(st: State, f: Func) returns (names: seq<string>, at: seq<Place>)
    requires ProperFunc(f)
    ensures Autos(f.decls, names, at)
    ensures var code, n := Translated(st, LinesOf(f)), |f.decls| + 1;
            && n < |code| - 2 && code[n] == New(names) && code[|code| - 2] == Destroy(names)
            && forall i :: 0 <= i < |code| ==> (code[i].New? <==> i == n) && (code[i].Destroy? <==> i == |code| - 2)
  {
    names := AutoLocals(f.decls);
    at := AutosPlaced(f.decls);
    FunctionEmitted(st, f);
    BetweenThem(f);
    OneOfEach([Enter] + Declares(f.decls), New(names), Middle(f), Destroy(names));
  }

  /** The code between the two items. */
  function Middle(f: Func): seq<Item> {
    BodyItems(f) + [GOTO_FINALLY, CatchLabel] + CatchItems(f) + [FinallyLabel] + FinallyItems(f)
  }

  lemma BetweenThem(f: Func)
    requires ProperFunc(f)
    ensures var names := AutoLocals(f.decls);
            Emitted(f) == [Enter] + Declares(f.decls) + [New(names)] + (Middle(f) + [Destroy(names), ReturnRetval])
    ensures Neither([Enter] + Declares(f.decls)) && Neither(Middle(f))
  {
    NeitherIn(BodyItems(f), CatchItems(f), FinallyItems(f));
  }

  lemma NeitherIn(a: seq<Item>, b: seq<Item>, c: seq<Item>)
    requires Neither(a) && Neither(b) && Neither(c)
    ensures Neither(a + [GOTO_FINALLY, CatchLabel] + b + [FinallyLabel] + c)
  {
  }

  /** A small function, line by line. */
  lemma SmallFunction(st: State)
    ensures Translated(st, [Open, Decl(true, [Var("x", false), Var("y", true)]), Decl(false, [Var("n", false)]), Blank,
                            Code(Return(0)), Close]) ==
            [Enter, Declare([Var("x", false), Var("y", true)]), Declare([Var("n", false)]), New(["x"]),
             Do(CSetAndLeave(0)), Do(CSkip), Do(CGotoFinally), CatchLabel, FinallyLabel, Destroy(["x"]), ReturnRetval]
  {
    var f := Func([Decl(true, [Var("x", false), Var("y", true)]), Decl(false, [Var("n", false)])], [Return(0)], None, None);
    SmallLocals(f.decls);
    SmallEmitted(st, f);
  }

  lemma SmallEmitted(st: State, f: Func)
    requires |f.decls| == 2 && ProperFunc(f) && f.body == [Return(0)] && f.onCatch == None && f.onFinally == None
    ensures var x := AutoLocals(f.decls);
            Translated(st, [Open, f.decls[0], f.decls[1], Blank, Code(Return(0)), Close]) ==
            [Enter, Declare(f.decls[0].vars), Declare(f.decls[1].vars), New(x),
             Do(CSetAndLeave(0)), Do(CSkip), Do(CGotoFinally), CatchLabel, FinallyLabel, Destroy(x), ReturnRetval]
  {
    FunctionEmitted(st, f);
    SmallLines(f);
    SmallPrologue(f);
    SmallCore(f);
  }

  lemma SmallPrologue(f: Func)
    requires |f.decls| == 2 && ProperFunc(f)
    ensures Prologue(f) == [Enter, Declare(f.decls[0].vars), Declare(f.decls[1].vars), New(AutoLocals(f.decls))]
  {
  }

  lemma SmallCore(f: Func)
    requires f.body == [Return(0)] && f.onCatch == None && f.onFinally == None
    ensures Core(f) == [Do(CSetAndLeave(0)), Do(CSkip), Do(CGotoFinally), CatchLabel, FinallyLabel,
                        Destroy(AutoLocals(f.decls)), ReturnRetval]
  {
    assert Lowered(f.body) == [Do(CSetAndLeave(0))] && Lowered(BlockOf(None)) == [];
  }

  lemma SmallLines(f: Func)
    requires |f.decls| == 2 && f.body == [Return(0)] && f.onCatch == None && f.onFinally == None
    ensures LinesOf(f) == [Open, f.decls[0], f.decls[1], Blank, Code(Return(0)), Close]
  {
  }

  lemma {:induction false} SmallLocals(decls: seq<Line>)
    requires |decls| == 2 && decls[0] == Decl(true, [Var("x", false), Var("y", true)])
    requires decls[1] == Decl(false, [Var("n", false)])
    ensures AutoLocals(decls) == ["x"]
  {
    var vars := decls[0].vars;
    var y, rest := vars[1..], decls[1..];
    assert y == [Var("y", true)] && y[1..] == [] && AutoVars(y) == [];
    assert rest == [decls[1]] && rest[1..] == [] && AutoLocals(rest) == [];
  }

  // ----- when

  /** Nothing is created or destroyed. */
  predicate Calm(t: Trace) { forall i :: 0 <= i < |t| ==> !t[i].Created? && !t[i].Destroyed? }

  /** The locals are created first; what returns destroys them last, and what leaves at once
      does not destroy them at all. */
  ghost predicate Lives(names: seq<string>, r: End) {
    match r
    case Returned(t, _) => exists mid :: Calm(mid) && t == Create(names) + mid + DestroyAll(names)
    case Aborted(t) => exists mid :: Calm(mid) && t == Create(names) + mid
    case Unfinished => true
  }

  lemma CalmBlock(w: World, b: seq<Stmt>, names: seq<string>, mid: Trace, armed: bool, loops: nat) returns (mid': Trace)
    requires Calm(mid)
    ensures Calm(mid') && ExecBlock(w, b, Create(names) + mid, armed, loops).0 == Create(names) + mid'
  {
    var t := Create(names) + mid;
    BlockFacts(w, b, t, armed, loops);
    var t' := ExecBlock(w, b, t, armed, loops).0;
    var more := t'[|t|..];
    mid' := mid + more;
    assert t' == t + more;
  }

  lemma {:induction false} FinallyLives(f: Func, w: World, mid: Trace, code: int, jumps: nat, loops: nat)
    requires Calm(mid)
    ensures var names := AutoLocals(f.decls); Lives(names, MeaningOfFinally(f, w, Create(names) + mid, code, jumps, loops))
    decreases jumps, 0
  {
    var names := AutoLocals(f.decls);
    var t := Create(names) + mid;
    assert t + [AtFinally] == Create(names) + (mid + [AtFinally]);
    var mid' := CalmBlock(w, BlockOf(f.onFinally), names, mid + [AtFinally], code == 0, loops);
    var flow := ExecBlock(w, BlockOf(f.onFinally), t + [AtFinally], code == 0, loops).1;
    if jumps > 0 {
      var k: nat := jumps - 1;
      match flow
      case Leaving => FinallyLives(f, w, mid', code, k, loops);
      case LeavingWith(v) => FinallyLives(f, w, mid', v, k, loops);
      case Raised => CatchLives(f, w, mid', k, loops);
      case _ =>
    }
  }

  lemma {:induction false} CatchLives(f: Func, w: World, mid: Trace, jumps: nat, loops: nat)
    requires Calm(mid)
    ensures var names := AutoLocals(f.decls); Lives(names, MeaningOfCatch(f, w, Create(names) + mid, jumps, loops))
    decreases jumps, 1
  {
    var names := AutoLocals(f.decls);
    var t := Create(names) + mid;
    assert t + [AtCatch] == Create(names) + (mid + [AtCatch]);
    var mid' := CalmBlock(w, BlockOf(f.onCatch), names, mid + [AtCatch], false, loops);
    var flow := ExecBlock(w, BlockOf(f.onCatch), t + [AtCatch], false, loops).1;
    if flow == Fell {
      FinallyLives(f, w, mid', -1, jumps, loops);
    } else if jumps > 0 {
      var k: nat := jumps - 1;
      match flow
      case Leaving => FinallyLives(f, w, mid', -1, k, loops);
      case LeavingWith(v) => FinallyLives(f, w, mid', v, k, loops);
      case Raised => CatchLives(f, w, mid', k, loops);
      case _ =>
    }
  }

  lemma MeaningLives(f: Func, w: World, jumps: nat, loops: nat)
    ensures Lives(AutoLocals(f.decls), Meaning(f, w, jumps, loops))
  {
    var names := AutoLocals(f.decls);
    assert Create(names) + [] == Create(names);
    var mid := CalmBlock(w, f.body, names, [], true, loops);
    var flow := ExecBlock(w, f.body, Create(names), true, loops).1;
    if jumps > 0 {
      var k: nat := jumps - 1;
      match flow
      case Raised => CatchLives(f, w, mid, k, loops);
      case Fell => FinallyLives(f, w, mid, 0, k, loops);
      case Leaving => FinallyLives(f, w, mid, 0, k, loops);
      case LeavingWith(v) => FinallyLives(f, w, mid, v, k, loops);
      case _ =>
    }
  }

  /** The same, event by event. */
  ghost predicate InOrder(names: seq<string>, r: End) {
    var n := |names|;
    match r
    case Returned(t, _) =>
      && |t| >= 2 * n && Calm(t[n..|t| - n])
      && forall k :: 0 <= k < n ==> t[k] == Created(names[k]) && t[|t| - n + k] == Destroyed(names[k])
    case Aborted(t) =>
      && |t| >= n && Calm(t[n..])
      && forall k :: 0 <= k < n ==> t[k] == Created(names[k])
    case Unfinished => true
  }

  lemma EventByEvent(names: seq<string>, r: End)
    requires Lives(names, r)
    ensures InOrder(names, r)
  {
    var n := |names|;
    match r
    case Returned(t, _) =>
      var mid :| Calm(mid) && t == Create(names) + mid + DestroyAll(names);
      assert t[n..|t| - n] == mid;
    case Aborted(t) =>
      var mid :| Calm(mid) && t == Create(names) + mid;
      assert t[n..] == mid;
    case Unfinished =>
  }

  /** Whatever the function does, its emitted code creates exactly those variables in the order of
      their declarations before anything else, and if it returns it destroys them in the same
      order behind everything else. */
  lemma LocalsLive(st: State, f: Func, w: World, retval: int, jumps: nat, loops: nat)
    returns (names: seq<string>, at: seq<Place>)
    requires ProperFunc(f)
    ensures Autos(f.decls, names, at)
    ensures InOrder(names, RunCode(w, Translated(st, LinesOf(f)), 0, Machine([], retval), jumps, loops))
  {
    names := AutoLocals(f.decls);
    at := AutosPlaced(f.decls);
    TranslationPreservesMeaning(st, f, w, retval, jumps, loops);
    MeaningLives(f, w, jumps, loops);
    EventByEvent(names, Meaning(f, w, jumps, loops));
  }
}
