/** How functions are left: which blocks run, how often, and what becomes of their locals. */
module ExitDiscipline {
  import opened Bytes
  import opened Translator
  import opened Lowering

  function Times(t: Trace, e: Event): nat { multiset(t)[e] }

  predicate AllDid(t: Trace) { forall i :: 0 <= i < |t| ==> t[i].Did? }

  /** The statement neither returns nor jumps to finally. */
  predicate StaysInside(s: Stmt) {
    match s
    case Return(_) => false
    case Leave => false
    case If(_, a, b) => StaysInside(a) && StaysInside(b)
    case While(_, b) => StaysInside(b)
    case Then(a, b) => StaysInside(a) && StaysInside(b)
    case _ => true
  }

  /** The statement never returns success. */
  ghost predicate NeverReturnsZero(w: World, s: Stmt) {
    match s
    case Return(e) => forall t: Trace :: w.expr(e, t) != 0
    case If(_, a, b) => NeverReturnsZero(w, a) && NeverReturnsZero(w, b)
    case While(_, b) => NeverReturnsZero(w, b)
    case Then(a, b) => NeverReturnsZero(w, a) && NeverReturnsZero(w, b)
    case _ => true
  }

  predicate BlockStaysInside(b: seq<Stmt>) { forall i :: 0 <= i < |b| ==> StaysInside(b[i]) }

  ghost predicate BlockNeverReturnsZero(w: World, b: seq<Stmt>) { forall i :: 0 <= i < |b| ==> NeverReturnsZero(w, b[i]) }

  /** Nothing returns in finally, and catch does not turn failure into success. */
  ghost predicate Disciplined(f: Func, w: World) {
    BlockStaysInside(BlockOf(f.onFinally)) && BlockNeverReturnsZero(w, BlockOf(f.onCatch))
  }

  /** Only the events of statements are added, and raising needs to be armed. */
  ghost predicate Plain(t: Trace, t': Trace, flow: Flow, armed: bool) {
    && t <= t' && AllDid(t'[|t|..])
    && (flow == Raised ==> armed)
  }

  lemma PlainTwice(t: Trace, u: Trace, v: Trace)
    requires t <= u && u <= v && AllDid(u[|t|..]) && AllDid(v[|u|..])
    ensures t <= v && AllDid(v[|t|..])
  {
    assert v[|t|..] == u[|t|..] + v[|u|..];
  }

  lemma {:induction false} ExecFacts(w: World, s: Stmt, t: Trace, armed: bool, loops: nat)
    ensures var (t', flow) := Exec(w, s, t, armed, loops);
            && Plain(t, t', flow, armed)
            && (StaysInside(s) ==> flow != Leaving && !flow.LeavingWith?)
            && (NeverReturnsZero(w, s) && flow.LeavingWith? ==> flow.v != 0)
    decreases loops, s
  {
    var (t', flow) := Exec(w, s, t, armed, loops);
    match s
    case Act(n) => assert t'[|t|..] == [Did(n)];
    case Try(n) => assert t'[|t|..] == [Did(n)];
    case If(c, a, b) =>
      ExecFacts(w, a, t, armed, loops);
      ExecFacts(w, b, t, armed, loops);
    case While(c, b) =>
      if w.cond(c, t) && loops > 0 {
        ExecFacts(w, b, t, armed, loops);
        var (u, g) := Exec(w, b, t, armed, loops);
        if g == Fell {
          ExecFacts(w, s, u, armed, loops - 1);
          PlainTwice(t, u, t');
        }
      }
    case Then(a, b) =>
      ExecFacts(w, a, t, armed, loops);
      var (u, g) := Exec(w, a, t, armed, loops);
      if g == Fell {
        ExecFacts(w, b, u, armed, loops);
        PlainTwice(t, u, t');
      }
    case _ =>
  }

  lemma {:induction false} BlockFacts(w: World, b: seq<Stmt>, t: Trace, armed: bool, loops: nat)
    ensures var (t', flow) := ExecBlock(w, b, t, armed, loops);
            && Plain(t, t', flow, armed)
            && (BlockStaysInside(b) ==> flow != Leaving && !flow.LeavingWith?)
            && (BlockNeverReturnsZero(w, b) && flow.LeavingWith? ==> flow.v != 0)
            && forall e: Event :: !e.Did? ==> Times(t', e) == Times(t, e)
    decreases |b|
  {
    var (t', flow) := ExecBlock(w, b, t, armed, loops);
    if b != [] {
      ExecFacts(w, b[0], t, armed, loops);
      var (u, g) := Exec(w, b[0], t, armed, loops);
      if g == Fell {
        BlockFacts(w, b[1..], u, armed, loops);
        PlainTwice(t, u, t');
      }
    }
    assert t' == t + t'[|t|..];
  }

  lemma CreatedOnce(xs: seq<string>)
    ensures Times(Create(xs), AtCatch) == 0 && Times(Create(xs), AtFinally) == 0
    ensures forall x :: Times(Create(xs), Destroyed(x)) == 0
  {
  }

  lemma {:induction false} DestroyedOnce(xs: seq<string>)
    ensures Times(DestroyAll(xs), AtCatch) == 0 && Times(DestroyAll(xs), AtFinally) == 0
    ensures forall x :: Times(DestroyAll(xs), Destroyed(x)) == multiset(xs)[x]
  {
    if xs != [] {
      DestroyedOnce(xs[1..]);
      assert DestroyAll(xs) == [Destroyed(xs[0])] + DestroyAll(xs[1..]);
      assert xs == [xs[0]] + xs[1..];
    }
  }

  /** From trace `t` on, the function enters catch `c` times and finally `n` times, and then
      destroys its locals once and returns; or it leaves at once, having entered them no more
      often and destroyed nothing. */
  ghost predicate Leaves(f: Func, t: Trace, r: End, c: nat, n: nat) {
    match r
    case Returned(u, _) =>
      && Times(u, AtCatch) == Times(t, AtCatch) + c && Times(u, AtFinally) == Times(t, AtFinally) + n
      && forall x :: Times(u, Destroyed(x)) == Times(t, Destroyed(x)) + multiset(AutoLocals(f.decls))[x]
    case Aborted(u) =>
      && Times(u, AtCatch) <= Times(t, AtCatch) + c && Times(u, AtFinally) <= Times(t, AtFinally) + n
      && forall x :: Times(u, Destroyed(x)) == Times(t, Destroyed(x))
    case Unfinished => true
  }

  lemma BlockFrom(w: World, b: seq<Stmt>, t: Trace, mark: Event, armed: bool, loops: nat)
    requires mark == AtCatch || mark == AtFinally
    ensures var (u, flow) := ExecBlock(w, b, t + [mark], armed, loops);
            && (flow == Raised ==> armed)
            && (BlockStaysInside(b) ==> flow != Leaving && !flow.LeavingWith?)
            && (BlockNeverReturnsZero(w, b) && flow.LeavingWith? ==> flow.v != 0)
            && Times(u, AtCatch) == Times(t, AtCatch) + (if mark == AtCatch then 1 else 0)
            && Times(u, AtFinally) == Times(t, AtFinally) + (if mark == AtFinally then 1 else 0)
            && forall x :: Times(u, Destroyed(x)) == Times(t, Destroyed(x))
  {
    BlockFacts(w, b, t + [mark], armed, loops);
    assert forall x: string :: !Destroyed(x).Did?;
  }

  // ----- a block that does not stop

  /** Finally, entered from trace `t` with failure, runs out of loop passes. */
  predicate FailingFinallySticks(f: Func, w: World, t: Trace, loops: nat) {
    ExecBlock(w, BlockOf(f.onFinally), t + [AtFinally], false, loops).1 == Stuck
  }

  /** Catch does, or finally after it. */
  predicate CatchSticks(f: Func, w: World, t: Trace, loops: nat) {
    var (u, flow) := ExecBlock(w, BlockOf(f.onCatch), t + [AtCatch], false, loops);
    flow == Stuck || (Ends(flow) && FailingFinallySticks(f, w, u, loops))
  }

  /** Finally, entered with success, does, or catch after it has raised. */
  predicate SucceedingFinallySticks(f: Func, w: World, t: Trace, loops: nat) {
    var (u, flow) := ExecBlock(w, BlockOf(f.onFinally), t + [AtFinally], true, loops);
    flow == Stuck || (flow == Raised && CatchSticks(f, w, u, loops))
  }

  /** The block was run to its end or left for finally. */
  predicate Ends(flow: Flow) { flow == Fell || flow == Leaving || flow.LeavingWith? }

  function BodyRun(f: Func, w: World, loops: nat): (Trace, Flow) {
    ExecBlock(w, f.body, Create(AutoLocals(f.decls)), true, loops)
  }

  /** Some block that the function does enter runs out of loop passes. */
  predicate Sticks(f: Func, w: World, loops: nat) {
    var (t, flow) := BodyRun(f, w, loops);
    || flow == Stuck
    || (flow == Raised && CatchSticks(f, w, t, loops))
    || (Ends(flow) && if CodeOf(flow) == 0 then SucceedingFinallySticks(f, w, t, loops) else FailingFinallySticks(f, w, t, loops))
  }

  /** The body succeeds, and finally raises. */
  predicate RaisesInFinally(f: Func, w: World, loops: nat) {
    var (t, flow) := BodyRun(f, w, loops);
    Ends(flow) && CodeOf(flow) == 0 && ExecBlock(w, BlockOf(f.onFinally), t + [AtFinally], true, loops).1 == Raised
  }

  // ----- disciplined functions

  /** Finally entered with failure runs once and is the end. */
  lemma FailingFinally(f: Func, w: World, t: Trace, code: int, jumps: nat, loops: nat)
    requires Disciplined(f, w) && code != 0
    ensures var r := MeaningOfFinally(f, w, t, code, jumps, loops);
            && Leaves(f, t, r, 0, 1)
            && (r.Returned? ==> r.code == code)
            && (r == Unfinished <==> FailingFinallySticks(f, w, t, loops))
  {
    BlockFrom(w, BlockOf(f.onFinally), t, AtFinally, false, loops);
    DestroyedOnce(AutoLocals(f.decls));
  }

  /** Catch leads to finally, with failure. */
  lemma CatchThenFinally(f: Func, w: World, t: Trace, jumps: nat, loops: nat)
    requires Disciplined(f, w) && jumps >= 1
    ensures var r := MeaningOfCatch(f, w, t, jumps, loops);
            Leaves(f, t, r, 1, 1) && (r.Returned? ==> r.code != 0) && (r == Unfinished <==> CatchSticks(f, w, t, loops))
  {
    BlockFrom(w, BlockOf(f.onCatch), t, AtCatch, false, loops);
    var (u, flow) := ExecBlock(w, BlockOf(f.onCatch), t + [AtCatch], false, loops);
    var k: nat := jumps - 1;
    match flow
    case Fell => FailingFinally(f, w, u, -1, jumps, loops);
    case Leaving => FailingFinally(f, w, u, -1, k, loops);
    case LeavingWith(v) => FailingFinally(f, w, u, v, k, loops);
    case _ =>
  }

  /** Finally entered with success runs once and is the end, unless it raises. */
  lemma SucceedingFinally(f: Func, w: World, t: Trace, jumps: nat, loops: nat)
    requires Disciplined(f, w) && jumps >= 2
    ensures var r := MeaningOfFinally(f, w, t, 0, jumps, loops);
            && (r == Unfinished <==> SucceedingFinallySticks(f, w, t, loops))
            && if ExecBlock(w, BlockOf(f.onFinally), t + [AtFinally], true, loops).1 == Raised
               then Leaves(f, t, r, 1, 2) && (r.Returned? ==> r.code != 0)
               else Leaves(f, t, r, 0, 1) && (r.Returned? ==> r.code == 0)
  {
    BlockFrom(w, BlockOf(f.onFinally), t, AtFinally, true, loops);
    var (u, flow) := ExecBlock(w, BlockOf(f.onFinally), t + [AtFinally], true, loops);
    var r := MeaningOfFinally(f, w, t, 0, jumps, loops);
    match flow
    case Raised =>
      assert r == MeaningOfCatch(f, w, u, jumps - 1, loops);
      CatchThenFinally(f, w, u, jumps - 1, loops);
      LeavesLater(f, t, u, r);
    case Fell =>
      assert r == Returned(u + DestroyAll(AutoLocals(f.decls)), 0);
      LocalsGo(f, t, u, 0);
    case Abort =>
      assert r == Aborted(u);
      LeavesAtOnce(f, t, u);
    case Stuck =>
      assert r == Unfinished;
    case _ =>
  }

  lemma LeavesAtOnce(f: Func, t: Trace, u: Trace)
    requires Times(u, AtCatch) == Times(t, AtCatch) && Times(u, AtFinally) == Times(t, AtFinally) + 1
    requires forall x :: Times(u, Destroyed(x)) == Times(t, Destroyed(x))
    ensures Leaves(f, t, Aborted(u), 0, 1)
  {
  }

  /** At the end of finally every local is destroyed once. */
  lemma LocalsGo(f: Func, t: Trace, u: Trace, code: int)
    requires Times(u, AtCatch) == Times(t, AtCatch) && Times(u, AtFinally) == Times(t, AtFinally) + 1
    requires forall x :: Times(u, Destroyed(x)) == Times(t, Destroyed(x))
    ensures Leaves(f, t, Returned(u + DestroyAll(AutoLocals(f.decls)), code), 0, 1)
  {
    DestroyedOnce(AutoLocals(f.decls));
  }

  lemma LeavesLater(f: Func, t: Trace, u: Trace, r: End)
    requires Leaves(f, u, r, 1, 1)
    requires Times(u, AtCatch) == Times(t, AtCatch) && Times(u, AtFinally) == Times(t, AtFinally) + 1
    requires forall x :: Times(u, Destroyed(x)) == Times(t, Destroyed(x))
    ensures Leaves(f, t, r, 1, 2)
  {
  }

  /** How a disciplined function is left. One that returns has entered catch once if its body
      raised or its finally block raised after success, and then returns failure; otherwise it
      has not, and returns the code of its body. It has entered finally once, or twice exactly
      when finally raised after success, and has destroyed each of its locals once. One that
      leaves at once has entered the blocks no more often and destroyed nothing. */
  ghost predicate LeftInOrder(f: Func, w: World, loops: nat, r: End) {
    var (_, flow) := BodyRun(f, w, loops);
    var again := RaisesInFinally(f, w, loops);
    match r
    case Returned(t, code) =>
      && Times(t, AtCatch) == (if flow == Raised || again then 1 else 0)
      && Times(t, AtFinally) == (if again then 2 else 1)
      && (if flow == Raised || again then code != 0 else code == CodeOf(flow))
      && forall x :: Times(t, Destroyed(x)) == multiset(AutoLocals(f.decls))[x]
    case Aborted(t) =>
      && Times(t, AtCatch) <= (if flow == Raised || again then 1 else 0)
      && Times(t, AtFinally) <= (if again then 2 else 1)
      && forall x :: Times(t, Destroyed(x)) == 0
    case Unfinished => true
  }

  /** Three jumps are enough for all of this, unless a block that is entered does not stop. */
  lemma ExitsOnce(f: Func, w: World, jumps: nat, loops: nat)
    requires Disciplined(f, w) && jumps >= 3
    ensures LeftInOrder(f, w, loops, Meaning(f, w, jumps, loops))
    ensures Meaning(f, w, jumps, loops) == Unfinished <==> Sticks(f, w, loops)
  {
    var start := Create(AutoLocals(f.decls));
    CreatedOnce(AutoLocals(f.decls));
    BlockFacts(w, f.body, start, true, loops);
    var (t, flow) := BodyRun(f, w, loops);
    assert forall x: string :: Times(t, Destroyed(x)) == Times(start, Destroyed(x)) == 0;
    var k: nat := jumps - 1;
    if flow == Raised {
      CatchThenFinally(f, w, t, k, loops);
    } else if Ends(flow) {
      if CodeOf(flow) == 0 {
        SucceedingFinally(f, w, t, k, loops);
      } else {
        FailingFinally(f, w, t, CodeOf(flow), k, loops);
      }
    }
  }

  /** The same for the code that ncc emits for the function, in the middle of any file. */
  lemma EmittedExitsOnce(st: State, f: Func, w: World, retval: int, jumps: nat, loops: nat)
    requires ProperFunc(f) && Disciplined(f, w) && jumps >= 3
    ensures var r := RunCode(w, Translated(st, LinesOf(f)), 0, Machine([], retval), jumps, loops);
            LeftInOrder(f, w, loops, r) && (r == Unfinished <==> Sticks(f, w, loops))
  {
    TranslationPreservesMeaning(st, f, w, retval, jumps, loops);
    ExitsOnce(f, w, jumps, loops);
  }

  /** What the specification says of finally holds unless an error leaves the body, or the
      catch block the body raised to, at once. */
  lemma FinallyRunsExact(f: Func, w: World, jumps: nat, loops: nat)
    requires Meaning(f, w, jumps, loops) != Unfinished
    ensures var (t, flow) := ExecBlock(w, f.body, Create(AutoLocals(f.decls)), true, loops);
            Times(Meaning(f, w, jumps, loops).trace, AtFinally) >= 1 <==>
            flow != Abort && (flow == Raised ==> ExecBlock(w, BlockOf(f.onCatch), t + [AtCatch], false, loops).1 != Abort)
  {
    var start := Create(AutoLocals(f.decls));
    CreatedOnce(AutoLocals(f.decls));
    BlockFacts(w, f.body, start, true, loops);
    var (t, flow) := ExecBlock(w, f.body, start, true, loops);
    if flow == Raised {
      BlockFrom(w, BlockOf(f.onCatch), t, AtCatch, false, loops);
      var (u, g) := ExecBlock(w, BlockOf(f.onCatch), t + [AtCatch], false, loops);
      if g != Abort {
        FinallyIsLogged(f, w, u, if g.LeavingWith? then g.v else -1, if g == Fell then jumps - 1 else jumps - 2, loops);
      }
    } else if flow != Abort {
      FinallyIsLogged(f, w, t, CodeOf(flow), jumps - 1, loops);
    }
  }

  /** A function that ends has entered finally. */
  predicate Logged(r: End) { r != Unfinished ==> Times(r.trace, AtFinally) >= 1 }

  lemma LocalsKeepLog(f: Func, u: Trace, code: int)
    requires Times(u, AtFinally) >= 1
    ensures Logged(Returned(u + DestroyAll(AutoLocals(f.decls)), code))
  {
  }

  lemma {:induction false} FinallyIsLogged(f: Func, w: World, t: Trace, code: int, jumps: nat, loops: nat)
    ensures Logged(MeaningOfFinally(f, w, t, code, jumps, loops))
    decreases jumps, 0
  {
    BlockFrom(w, BlockOf(f.onFinally), t, AtFinally, code == 0, loops);
    var (u, flow) := ExecBlock(w, BlockOf(f.onFinally), t + [AtFinally], code == 0, loops);
    LocalsKeepLog(f, u, code);
    if jumps > 0 {
      var k: nat := jumps - 1;
      match flow
      case Leaving => FinallyIsLogged(f, w, u, code, k, loops);
      case LeavingWith(v) => FinallyIsLogged(f, w, u, v, k, loops);
      case Raised => CatchKeepsLog(f, w, u, k, loops);
      case _ =>
    }
  }

  lemma {:induction false} CatchKeepsLog(f: Func, w: World, t: Trace, jumps: nat, loops: nat)
    requires Times(t, AtFinally) >= 1
    ensures Logged(MeaningOfCatch(f, w, t, jumps, loops))
    decreases jumps, 1
  {
    BlockFrom(w, BlockOf(f.onCatch), t, AtCatch, false, loops);
    var (u, flow) := ExecBlock(w, BlockOf(f.onCatch), t + [AtCatch], false, loops);
    if flow == Fell {
      FinallyIsLogged(f, w, u, -1, jumps, loops);
    } else if jumps > 0 {
      var k: nat := jumps - 1;
      match flow
      case Leaving => FinallyIsLogged(f, w, u, -1, k, loops);
      case LeavingWith(v) => FinallyIsLogged(f, w, u, v, k, loops);
      case _ =>
    }
  }

  /** The statement has no bare library call and no throw: it never leaves the function at once. */
  predicate KeepsControl(s: Stmt) {
    match s
    case Try(_) => false
    case Throw => false
    case If(_, a, b) => KeepsControl(a) && KeepsControl(b)
    case While(_, b) => KeepsControl(b)
    case Then(a, b) => KeepsControl(a) && KeepsControl(b)
    case _ => true
  }

  predicate BlockKeepsControl(b: seq<Stmt>) { forall i :: 0 <= i < |b| ==> KeepsControl(b[i]) }

  lemma {:induction false} ControlKept(w: World, s: Stmt, t: Trace, armed: bool, loops: nat)
    requires KeepsControl(s)
    ensures Exec(w, s, t, armed, loops).1 != Abort
    decreases loops, s
  {
    match s
    case If(c, a, b) =>
      ControlKept(w, a, t, armed, loops);
      ControlKept(w, b, t, armed, loops);
    case While(c, b) =>
      if w.cond(c, t) && loops > 0 {
        ControlKept(w, b, t, armed, loops);
        ControlKept(w, s, Exec(w, b, t, armed, loops).0, armed, loops - 1);
      }
    case Then(a, b) =>
      ControlKept(w, a, t, armed, loops);
      ControlKept(w, b, Exec(w, a, t, armed, loops).0, armed, loops);
    case _ =>
  }

  lemma {:induction false} BlockControlKept(w: World, b: seq<Stmt>, t: Trace, armed: bool, loops: nat)
    requires BlockKeepsControl(b)
    ensures ExecBlock(w, b, t, armed, loops).1 != Abort
    decreases |b|
  {
    if b != [] {
      ControlKept(w, b[0], t, armed, loops);
      BlockControlKept(w, b[1..], Exec(w, b[0], t, armed, loops).0, armed, loops);
    }
  }

  /** In particular finally runs in every function without throws and bare library calls in its
      body and its catch block. */
  lemma FinallyRunsWithControl(f: Func, w: World, jumps: nat, loops: nat)
    requires Meaning(f, w, jumps, loops) != Unfinished
    requires BlockKeepsControl(f.body) && BlockKeepsControl(BlockOf(f.onCatch))
    ensures Times(Meaning(f, w, jumps, loops).trace, AtFinally) >= 1
  {
    var (t, flow) := ExecBlock(w, f.body, Create(AutoLocals(f.decls)), true, loops);
    BlockControlKept(w, f.body, Create(AutoLocals(f.decls)), true, loops);
    BlockControlKept(w, BlockOf(f.onCatch), t + [AtCatch], false, loops);
    FinallyRunsExact(f, w, jumps, loops);
  }

  // ----- undisciplined functions

  /** Control does not get past the statement: on every way through it something returns, jumps
      to finally or throws. */
  predicate NoWayPast(s: Stmt) {
    match s
    case Return(_) => true
    case Leave => true
    case Throw => true
    case If(_, a, b) => NoWayPast(a) && NoWayPast(b)
    case Then(a, b) => NoWayPast(a) || NoWayPast(b)
    case _ => false
  }

  predicate NoWayThrough(b: seq<Stmt>) { exists i :: 0 <= i < |b| && NoWayPast(b[i]) }

  lemma {:induction false} StopsControl(w: World, s: Stmt, t: Trace, armed: bool, loops: nat)
    requires NoWayPast(s)
    ensures Exec(w, s, t, armed, loops).1 != Fell
    decreases s
  {
    match s
    case If(_, a, b) =>
      StopsControl(w, a, t, armed, loops);
      StopsControl(w, b, t, armed, loops);
    case Then(a, b) =>
      if NoWayPast(a) {
        StopsControl(w, a, t, armed, loops);
      } else {
        StopsControl(w, b, Exec(w, a, t, armed, loops).0, armed, loops);
      }
    case _ =>
  }

  lemma {:induction false} BlockStopsControl(w: World, b: seq<Stmt>, t: Trace, armed: bool, loops: nat)
    requires NoWayThrough(b)
    ensures ExecBlock(w, b, t, armed, loops).1 != Fell
    decreases |b|
  {
    if NoWayPast(b[0]) {
      StopsControl(w, b[0], t, armed, loops);
    } else {
      var i :| 0 <= i < |b| && NoWayPast(b[i]);
      assert b[1..][i - 1] == b[i];
      BlockStopsControl(w, b[1..], Exec(w, b[0], t, armed, loops).0, armed, loops);
    }
  }

  /** Finally is never run to its end. */
  ghost predicate NeverFallsThrough(f: Func, w: World, loops: nat) {
    forall t: Trace, armed: bool :: ExecBlock(w, BlockOf(f.onFinally), t, armed, loops).1 != Fell
  }

  /** Whenever such a finally block is entered, the function does not return. */
  lemma {:induction false} NoReturnFromFinally(f: Func, w: World, t: Trace, code: int, jumps: nat, loops: nat)
    requires NeverFallsThrough(f, w, loops)
    ensures !MeaningOfFinally(f, w, t, code, jumps, loops).Returned?
    decreases jumps, 0
  {
    var (u, flow) := ExecBlock(w, BlockOf(f.onFinally), t + [AtFinally], code == 0, loops);
    if jumps > 0 {
      var k: nat := jumps - 1;
      match flow
      case Leaving => NoReturnFromFinally(f, w, u, code, k, loops);
      case LeavingWith(v) => NoReturnFromFinally(f, w, u, v, k, loops);
      case Raised => NoReturnFromCatch(f, w, u, k, loops);
      case _ =>
    }
  }

  lemma {:induction false} NoReturnFromCatch(f: Func, w: World, t: Trace, jumps: nat, loops: nat)
    requires NeverFallsThrough(f, w, loops)
    ensures !MeaningOfCatch(f, w, t, jumps, loops).Returned?
    decreases jumps, 1
  {
    var (u, flow) := ExecBlock(w, BlockOf(f.onCatch), t + [AtCatch], false, loops);
    if flow == Fell {
      NoReturnFromFinally(f, w, u, -1, jumps, loops);
    } else if jumps > 0 {
      var k: nat := jumps - 1;
      match flow
      case Leaving => NoReturnFromFinally(f, w, u, -1, k, loops);
      case LeavingWith(v) => NoReturnFromFinally(f, w, u, v, k, loops);
      case Raised => NoReturnFromCatch(f, w, u, k, loops);
      case _ =>
    }
  }

  /** A finally block that is never run to its end never lets the function return, whatever the
      body and the catch block do. */
  lemma NoEndOfFinally(f: Func, w: World, jumps: nat, loops: nat)
    requires NeverFallsThrough(f, w, loops)
    ensures !Meaning(f, w, jumps, loops).Returned?
  {
    var (t, flow) := BodyRun(f, w, loops);
    if jumps > 0 {
      var k: nat := jumps - 1;
      if flow == Raised {
        NoReturnFromCatch(f, w, t, k, loops);
      } else if Ends(flow) {
        NoReturnFromFinally(f, w, t, CodeOf(flow), k, loops);
      }
    }
  }

  /** In particular one in which something returns, jumps or throws on every way. */
  lemma ReturnInFinallyNeverReturns(f: Func, w: World, jumps: nat, loops: nat)
    requires NoWayThrough(BlockOf(f.onFinally))
    ensures NeverFallsThrough(f, w, loops)
    ensures !Meaning(f, w, jumps, loops).Returned?
  {
    forall t: Trace, armed: bool
      ensures ExecBlock(w, BlockOf(f.onFinally), t, armed, loops).1 != Fell
    {
      BlockStopsControl(w, BlockOf(f.onFinally), t, armed, loops);
    }
    NoEndOfFinally(f, w, jumps, loops);
  }

  /** Catch always returns success, and finally, entered with success, always raises. */
  ghost predicate Circular(f: Func, w: World, loops: nat) {
    && (forall t: Trace :: ExecBlock(w, BlockOf(f.onCatch), t, false, loops).1 == LeavingWith(0))
    && (forall t: Trace :: ExecBlock(w, BlockOf(f.onFinally), t, true, loops).1 == Raised)
  }

  lemma CircularExample(f: Func, w: World, e: nat, loops: nat)
    requires f.onCatch == Some([Return(e)]) && f.onFinally == Some([Raise]) && forall t: Trace :: w.expr(e, t) == 0
    ensures Circular(f, w, loops)
  {
  }

  lemma {:induction false} CatchCircles(f: Func, w: World, t: Trace, jumps: nat, loops: nat)
    requires Circular(f, w, loops)
    ensures MeaningOfCatch(f, w, t, jumps, loops) == Unfinished
    decreases jumps, 1
  {
    if jumps > 0 {
      FinallyCircles(f, w, ExecBlock(w, BlockOf(f.onCatch), t + [AtCatch], false, loops).0, jumps - 1, loops);
    }
  }

  lemma {:induction false} FinallyCircles(f: Func, w: World, t: Trace, jumps: nat, loops: nat)
    requires Circular(f, w, loops)
    ensures MeaningOfFinally(f, w, t, 0, jumps, loops) == Unfinished
    decreases jumps, 0
  {
    if jumps > 0 {
      CatchCircles(f, w, ExecBlock(w, BlockOf(f.onFinally), t + [AtFinally], true, loops).0, jumps - 1, loops);
    }
  }

  /** Such a function does not end unless its body returns failure or leaves at once. */
  lemma SuccessFromCatchLoops(f: Func, w: World, jumps: nat, loops: nat)
    requires Circular(f, w, loops)
    ensures var (_, flow) := BodyRun(f, w, loops);
            Meaning(f, w, jumps, loops) == Unfinished || flow == Abort || (flow.LeavingWith? && flow.v != 0)
  {
    var (t, flow) := BodyRun(f, w, loops);
    if jumps > 0 {
      if flow == Raised {
        CatchCircles(f, w, t, jumps - 1, loops);
      } else if Ends(flow) && CodeOf(flow) == 0 {
        FinallyCircles(f, w, t, jumps - 1, loops);
      }
    }
  }

  /** A function that throws leaves without its finally block. */
  lemma ThrowSkipsFinally(jumps: nat, loops: nat, w: World)
    ensures Meaning(Func([], [Throw], None, Some([Act(0)])), w, jumps, loops) == Aborted([])
  {
    assert Create(AutoLocals([])) == [];
    assert ExecBlock(w, [Throw], [], true, loops) == ([], Abort);
  }
}
