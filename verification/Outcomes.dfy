/** The end of a function does not depend on the allowance of jumps and loop passes under which
    it is reached. */
module Outcomes {
  import opened Bytes
  import opened Translator
  import opened Lowering

  // ----- structured functions

  /** A statement that stops does the same with more passes. */
  lemma {:induction false} ExecMore(w: World, s: Stmt, t: Trace, armed: bool, loops: nat, more: nat)
    requires loops <= more && Exec(w, s, t, armed, loops).1 != Stuck
    ensures Exec(w, s, t, armed, more) == Exec(w, s, t, armed, loops)
    decreases loops, s
  {
    match s
    case If(c, a, b) => ExecMore(w, if w.cond(c, t) then a else b, t, armed, loops, more);
    case While(c, b) =>
      if w.cond(c, t) && loops > 0 {
        ExecMore(w, b, t, armed, loops, more);
        var (t', flow) := Exec(w, b, t, armed, loops);
        if flow == Fell {
          ExecMore(w, s, t', armed, loops - 1, more - 1);
        }
      }
    case Then(a, b) =>
      ExecMore(w, a, t, armed, loops, more);
      var (t', flow) := Exec(w, a, t, armed, loops);
      if flow == Fell {
        ExecMore(w, b, t', armed, loops, more);
      }
    case _ =>
  }

  lemma {:induction false} BlockMore(w: World, b: seq<Stmt>, t: Trace, armed: bool, loops: nat, more: nat)
    requires loops <= more && ExecBlock(w, b, t, armed, loops).1 != Stuck
    ensures ExecBlock(w, b, t, armed, more) == ExecBlock(w, b, t, armed, loops)
    decreases |b|
  {
    if b != [] {
      ExecMore(w, b[0], t, armed, loops, more);
      var (t', flow) := Exec(w, b[0], t, armed, loops);
      if flow == Fell {
        BlockMore(w, b[1..], t', armed, loops, more);
      }
    }
  }

  lemma {:induction false} CatchMore(f: Func, w: World, t: Trace, jumps: nat, loops: nat, moreJumps: nat, more: nat)
    requires jumps <= moreJumps && loops <= more && MeaningOfCatch(f, w, t, jumps, loops) != Unfinished
    ensures MeaningOfCatch(f, w, t, moreJumps, more) == MeaningOfCatch(f, w, t, jumps, loops)
    decreases jumps, 1
  {
    BlockMore(w, BlockOf(f.onCatch), t + [AtCatch], false, loops, more);
    var (u, flow) := ExecBlock(w, BlockOf(f.onCatch), t + [AtCatch], false, loops);
    if flow == Fell {
      FinallyMore(f, w, u, -1, jumps, loops, moreJumps, more);
    } else if jumps > 0 {
      var j: nat, k: nat := jumps - 1, moreJumps - 1;
      match flow
      case Leaving => FinallyMore(f, w, u, -1, j, loops, k, more);
      case LeavingWith(v) => FinallyMore(f, w, u, v, j, loops, k, more);
      case Raised => CatchMore(f, w, u, j, loops, k, more);
      case _ =>
    }
  }

  lemma {:induction false} FinallyMore(f: Func, w: World, t: Trace, code: int, jumps: nat, loops: nat, moreJumps: nat, more: nat)
    requires jumps <= moreJumps && loops <= more && MeaningOfFinally(f, w, t, code, jumps, loops) != Unfinished
    ensures MeaningOfFinally(f, w, t, code, moreJumps, more) == MeaningOfFinally(f, w, t, code, jumps, loops)
    decreases jumps, 0
  {
    BlockMore(w, BlockOf(f.onFinally), t + [AtFinally], code == 0, loops, more);
    var (u, flow) := ExecBlock(w, BlockOf(f.onFinally), t + [AtFinally], code == 0, loops);
    if jumps > 0 {
      var j: nat, k: nat := jumps - 1, moreJumps - 1;
      match flow
      case Leaving => FinallyMore(f, w, u, code, j, loops, k, more);
      case LeavingWith(v) => FinallyMore(f, w, u, v, j, loops, k, more);
      case Raised => CatchMore(f, w, u, j, loops, k, more);
      case _ =>
    }
  }

  /** A function that ends does so in the same way under every larger allowance. */
  lemma MeaningMore(f: Func, w: World, jumps: nat, loops: nat, moreJumps: nat, more: nat)
    requires jumps <= moreJumps && loops <= more && Meaning(f, w, jumps, loops) != Unfinished
    ensures Meaning(f, w, moreJumps, more) == Meaning(f, w, jumps, loops)
  {
    var start := Create(AutoLocals(f.decls));
    BlockMore(w, f.body, start, true, loops, more);
    var (t, flow) := ExecBlock(w, f.body, start, true, loops);
    if jumps > 0 {
      var j: nat, k: nat := jumps - 1, moreJumps - 1;
      match flow
      case Raised => CatchMore(f, w, t, j, loops, k, more);
      case Abort =>
      case Stuck =>
      case _ => FinallyMore(f, w, t, CodeOf(flow), j, loops, k, more);
    }
  }

  // ----- emitted code

  lemma {:induction false} ExecCMore(w: World, c: CStmt, m: Machine, loops: nat, more: nat)
    requires loops <= more && ExecC(w, c, m, loops).1 != OutOfPasses
    ensures ExecC(w, c, m, more) == ExecC(w, c, m, loops)
    decreases loops, c
  {
    match c
    case CIf(n, a, b) => ExecCMore(w, if w.cond(n, m.trace) then a else b, m, loops, more);
    case CWhile(n, b) =>
      if w.cond(n, m.trace) && loops > 0 {
        ExecCMore(w, b, m, loops, more);
        var (m', step) := ExecC(w, b, m, loops);
        if step == Next {
          ExecCMore(w, c, m', loops - 1, more - 1);
        }
      }
    case CThen(a, b) =>
      ExecCMore(w, a, m, loops, more);
      var (m', step) := ExecC(w, a, m, loops);
      if step == Next {
        ExecCMore(w, b, m', loops, more);
      }
    case _ =>
  }

  /** Any code, from any position: if it ends, it does so in the same way under every larger
      allowance. */
  lemma {:induction false} RunCodeMore(w: World, code: seq<Item>, pc: nat, m: Machine, jumps: nat, loops: nat,
                                       moreJumps: nat, more: nat)
    requires jumps <= moreJumps && loops <= more && RunCode(w, code, pc, m, jumps, loops) != Unfinished
    ensures RunCode(w, code, pc, m, moreJumps, more) == RunCode(w, code, pc, m, jumps, loops)
    decreases jumps, |code| - pc
  {
    var next := pc + 1;
    match code[pc]
    case Enter => RunCodeMore(w, code, next, m.(retval := 0), jumps, loops, moreJumps, more);
    case Declare(_) => RunCodeMore(w, code, next, m, jumps, loops, moreJumps, more);
    case New(xs) => RunCodeMore(w, code, next, m.(trace := m.trace + Create(xs)), jumps, loops, moreJumps, more);
    case CatchLabel => RunCodeMore(w, code, next, Machine(m.trace + [AtCatch], -1), jumps, loops, moreJumps, more);
    case FinallyLabel => RunCodeMore(w, code, next, m.(trace := m.trace + [AtFinally]), jumps, loops, moreJumps, more);
    case Destroy(xs) => RunCodeMore(w, code, next, m.(trace := m.trace + DestroyAll(xs)), jumps, loops, moreJumps, more);
    case ReturnRetval =>
    case Do(c) =>
      ExecCMore(w, c, m, loops, more);
      var (m', step) := ExecC(w, c, m, loops);
      if step == Next {
        RunCodeMore(w, code, next, m', jumps, loops, moreJumps, more);
      } else if jumps > 0 {
        var j: nat, k: nat := jumps - 1, moreJumps - 1;
        if step == GotoCatch {
          RunCodeMore(w, code, Find(code, CatchLabel), m', j, loops, k, more);
        } else if step == GotoFinally {
          RunCodeMore(w, code, Find(code, FinallyLabel), m', j, loops, k, more);
        }
      }
  }

  // ----- the outcome

  /** The function ends in this way under some allowance. */
  ghost predicate EndsIn(f: Func, w: World, r: End) {
    r != Unfinished && exists jumps: nat, loops: nat :: Meaning(f, w, jumps, loops) == r
  }

  ghost predicate CodeEndsIn(code: seq<Item>, w: World, retval: int, r: End) {
    r != Unfinished && exists jumps: nat, loops: nat :: RunCode(w, code, 0, Machine([], retval), jumps, loops) == r
  }

  /** There is at most one way. */
  lemma OneOutcome(f: Func, w: World, r: End, r': End)
    requires EndsIn(f, w, r) && EndsIn(f, w, r')
    ensures r == r'
  {
    var j: nat, l: nat :| Meaning(f, w, j, l) == r;
    var j': nat, l': nat :| Meaning(f, w, j', l') == r';
    var jumps, loops := if j < j' then j' else j, if l < l' then l' else l;
    MeaningMore(f, w, j, l, jumps, loops);
    MeaningMore(f, w, j', l', jumps, loops);
  }

  lemma OneOutcomeOfCode(code: seq<Item>, w: World, retval: int, r: End, r': End)
    requires CodeEndsIn(code, w, retval, r) && CodeEndsIn(code, w, retval, r')
    ensures r == r'
  {
    var m := Machine([], retval);
    var j: nat, l: nat :| RunCode(w, code, 0, m, j, l) == r;
    var j': nat, l': nat :| RunCode(w, code, 0, m, j', l') == r';
    var jumps, loops := if j < j' then j' else j, if l < l' then l' else l;
    RunCodeMore(w, code, 0, m, j, l, jumps, loops);
    RunCodeMore(w, code, 0, m, j', l', jumps, loops);
  }

  /** Compiler correctness without allowances: the function and its translation, in the middle of
      any file, end in the same way or neither ends. */
  lemma SameOutcome(st: State, f: Func, w: World, retval: int, r: End)
    requires ProperFunc(f)
    ensures CodeEndsIn(Translated(st, LinesOf(f)), w, retval, r) <==> EndsIn(f, w, r)
  {
    var code, m := Translated(st, LinesOf(f)), Machine([], retval);
    forall jumps: nat, loops: nat
      ensures RunCode(w, code, 0, m, jumps, loops) == Meaning(f, w, jumps, loops)
    {
      TranslationPreservesMeaning(st, f, w, retval, jumps, loops);
    }
  }
}
