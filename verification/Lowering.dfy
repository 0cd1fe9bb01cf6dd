/** The meaning of Natural C functions, the meaning of the code ncc emits for them, and that the
    two are the same. */
module Lowering {
  import opened Bytes
  import opened Translator

  datatype Event = Did(n: nat) | Created(x: string) | Destroyed(x: string) | AtCatch | AtFinally

  type Trace = seq<Event>

  /** What conditions, return expressions and library calls come to, given what has happened. */
  datatype World = World(cond: (nat, Trace) -> bool, expr: (nat, Trace) -> int, fails: (nat, Trace) -> bool)

  /** How a function ends: it returns a code behind its destructors, it leaves at once with -1,
      or it does not end within the allowed number of jumps and loop passes. */
  datatype End = Returned(trace: Trace, code: int) | Aborted(trace: Trace) | Unfinished

  // ----- structured meaning

  datatype Flow = Fell | Leaving | LeavingWith(v: int) | Raised | Abort | Stuck

  /** A statement; raising has an effect only where it is armed. */
  function Exec(w: World, s: Stmt, t: Trace, armed: bool, loops: nat): (Trace, Flow)
    decreases loops, s
  {
    match s
    case Act(n) => (t + [Did(n)], Fell)
    case Try(n) => (t + [Did(n)], if w.fails(n, t) then Abort else Fell)
    case Throw => (t, Abort)
    case Raise => (t, if armed then Raised else Fell)
    case Return(e) => (t, LeavingWith(w.expr(e, t)))
    case Leave => (t, Leaving)
    case If(c, a, b) => if w.cond(c, t) then Exec(w, a, t, armed, loops) else Exec(w, b, t, armed, loops)
    case While(c, b) =>
      if !w.cond(c, t) then (t, Fell)
      else if loops == 0 then (t, Stuck)
      else
        var (t', flow) := Exec(w, b, t, armed, loops);
        if flow == Fell then Exec(w, s, t', armed, loops - 1) else (t', flow)
    case Then(a, b) =>
      var (t', flow) := Exec(w, a, t, armed, loops);
      if flow == Fell then Exec(w, b, t', armed, loops) else (t', flow)
    case Skip => (t, Fell)
  }

  function ExecBlock(w: World, b: seq<Stmt>, t: Trace, armed: bool, loops: nat): (Trace, Flow) {
    if b == [] then (t, Fell)
    else
      var (t', flow) := Exec(w, b[0], t, armed, loops);
      if flow == Fell then ExecBlock(w, b[1..], t', armed, loops) else (t', flow)
  }

  function Create(xs: seq<string>): Trace { seq(|xs|, i requires 0 <= i < |xs| => Created(xs[i])) }

  function DestroyAll(xs: seq<string>): Trace { seq(|xs|, i requires 0 <= i < |xs| => Destroyed(xs[i])) }

  /** The function: its body, then catch if the body raised, then finally in any case. Every
      change of block but the one from the end of catch to finally takes a jump. */
  function Meaning(f: Func, w: World, jumps: nat, loops: nat): End {
    var (t, flow) := ExecBlock(w, f.body, Create(AutoLocals(f.decls)), true, loops);
    AfterBody(f, w, t, flow, jumps, loops)
  }

  /** The code of a body that gets to finally. */
  function CodeOf(flow: Flow): int { if flow.LeavingWith? then flow.v else 0 }

  function AfterBody(f: Func, w: World, t: Trace, flow: Flow, jumps: nat, loops: nat): End {
    match flow
    case Abort => Aborted(t)
    case Stuck => Unfinished
    case Raised => if jumps == 0 then Unfinished else MeaningOfCatch(f, w, t, jumps - 1, loops)
    case _ =>
      if jumps == 0 then Unfinished
      else MeaningOfFinally(f, w, t, CodeOf(flow), jumps - 1, loops)
  }

  function MeaningOfCatch(f: Func, w: World, t: Trace, jumps: nat, loops: nat): End
    decreases jumps, 1
  {
    var (t', flow) := ExecBlock(w, BlockOf(f.onCatch), t + [AtCatch], false, loops);
    match flow
    case Fell => MeaningOfFinally(f, w, t', -1, jumps, loops)
    case Leaving => if jumps == 0 then Unfinished else MeaningOfFinally(f, w, t', -1, jumps - 1, loops)
    case LeavingWith(v) => if jumps == 0 then Unfinished else MeaningOfFinally(f, w, t', v, jumps - 1, loops)
    case Raised => if jumps == 0 then Unfinished else MeaningOfCatch(f, w, t', jumps - 1, loops)
    case Abort => Aborted(t')
    case Stuck => Unfinished
  }

  /** Finally raises only when it was entered with success. */
  function MeaningOfFinally(f: Func, w: World, t: Trace, code: int, jumps: nat, loops: nat): End
    decreases jumps, 0
  {
    var (t', flow) := ExecBlock(w, BlockOf(f.onFinally), t + [AtFinally], code == 0, loops);
    match flow
    case Fell => Returned(t' + DestroyAll(AutoLocals(f.decls)), code)
    case Leaving => if jumps == 0 then Unfinished else MeaningOfFinally(f, w, t', code, jumps - 1, loops)
    case LeavingWith(v) => if jumps == 0 then Unfinished else MeaningOfFinally(f, w, t', v, jumps - 1, loops)
    case Raised => if jumps == 0 then Unfinished else MeaningOfCatch(f, w, t', jumps - 1, loops)
    case Abort => Aborted(t')
    case Stuck => Unfinished
  }

  // ----- meaning of the emitted code

  /** The trace so far and __retval. */
  datatype Machine = Machine(trace: Trace, retval: int)

  datatype Step = Next | GotoCatch | GotoFinally | ReturnError | OutOfPasses

  function ExecC(w: World, c: CStmt, m: Machine, loops: nat): (Machine, Step)
    decreases loops, c
  {
    match c
    case CAct(n) => (m.(trace := m.trace + [Did(n)]), Next)
    case CTry(n) => (m.(trace := m.trace + [Did(n)]), if w.fails(n, m.trace) then ReturnError else Next)
    case CReturnError => (m, ReturnError)
    case CRaise => (m, if m.retval == 0 then GotoCatch else Next)
    case CSetAndLeave(e) => (m.(retval := w.expr(e, m.trace)), GotoFinally)
    case CGotoFinally => (m, GotoFinally)
    case CIf(n, a, b) => if w.cond(n, m.trace) then ExecC(w, a, m, loops) else ExecC(w, b, m, loops)
    case CWhile(n, b) =>
      if !w.cond(n, m.trace) then (m, Next)
      else if loops == 0 then (m, OutOfPasses)
      else
        var (m', step) := ExecC(w, b, m, loops);
        if step == Next then ExecC(w, c, m', loops - 1) else (m', step)
    case CThen(a, b) =>
      var (m', step) := ExecC(w, a, m, loops);
      if step == Next then ExecC(w, b, m', loops) else (m', step)
    case CSkip => (m, Next)
  }

  /** The position of a label; the end of the code if it is missing. */
  function Find(code: seq<Item>, mark: Item): (pc: nat)
    ensures pc <= |code| && (pc < |code| ==> code[pc] == mark)
    ensures forall i :: 0 <= i < pc ==> code[i] != mark
  {
    if code == [] || code[0] == mark then 0 else 1 + Find(code[1..], mark)
  }

  /** The emitted code from position `pc` on; a jump goes to a label of the function. */
  function RunCode(w: World, code: seq<Item>, pc: nat, m: Machine, jumps: nat, loops: nat): End
    decreases jumps, |code| - pc
  {
    if pc >= |code| then Unfinished
    else
      match code[pc]
      case Enter => RunCode(w, code, pc + 1, m.(retval := 0), jumps, loops)
      case Declare(_) => RunCode(w, code, pc + 1, m, jumps, loops)
      case New(xs) => RunCode(w, code, pc + 1, m.(trace := m.trace + Create(xs)), jumps, loops)
      case CatchLabel => RunCode(w, code, pc + 1, Machine(m.trace + [AtCatch], -1), jumps, loops)
      case FinallyLabel => RunCode(w, code, pc + 1, m.(trace := m.trace + [AtFinally]), jumps, loops)
      case Destroy(xs) => RunCode(w, code, pc + 1, m.(trace := m.trace + DestroyAll(xs)), jumps, loops)
      case ReturnRetval => Returned(m.trace, m.retval)
      case Do(c) =>
        var (m', step) := ExecC(w, c, m, loops);
        match step
        case Next => RunCode(w, code, pc + 1, m', jumps, loops)
        case GotoCatch => if jumps == 0 then Unfinished else RunCode(w, code, Find(code, CatchLabel), m', jumps - 1, loops)
        case GotoFinally => if jumps == 0 then Unfinished
                            else RunCode(w, code, Find(code, FinallyLabel), m', jumps - 1, loops)
        case ReturnError => Aborted(m'.trace)
        case OutOfPasses => Unfinished
  }

  // ----- statements

  /** The step and the __retval a flow corresponds to. */
  function StepOf(t: Trace, flow: Flow, retval: int): (Machine, Step) {
    match flow
    case Fell => (Machine(t, retval), Next)
    case Leaving => (Machine(t, retval), GotoFinally)
    case LeavingWith(v) => (Machine(t, v), GotoFinally)
    case Raised => (Machine(t, retval), GotoCatch)
    case Abort => (Machine(t, retval), ReturnError)
    case Stuck => (Machine(t, retval), OutOfPasses)
  }

  /** A rewritten statement does what the statement does. */
  lemma {:induction false} StatementPreserved(w: World, s: Stmt, t: Trace, retval: int, loops: nat)
    ensures var (t', flow) := Exec(w, s, t, retval == 0, loops);
            ExecC(w, Rewrite(s), Machine(t, retval), loops) == StepOf(t', flow, retval)
    decreases loops, s
  {
    match s
    case If(c, a, b) =>
      StatementPreserved(w, a, t, retval, loops);
      StatementPreserved(w, b, t, retval, loops);
    case While(c, b) =>
      if w.cond(c, t) && loops > 0 {
        StatementPreserved(w, b, t, retval, loops);
        var (t', flow) := Exec(w, b, t, retval == 0, loops);
        if flow == Fell {
          StatementPreserved(w, s, t', retval, loops - 1);
        }
      }
    case Then(a, b) =>
      StatementPreserved(w, a, t, retval, loops);
      var (t', flow) := Exec(w, a, t, retval == 0, loops);
      if flow == Fell {
        StatementPreserved(w, b, t', retval, loops);
      }
    case _ =>
  }

  /** `items` stand in the code from position `pc` on. */
  predicate PartHeld(code: seq<Item>, pc: nat, items: seq<Item>) {
    pc + |items| <= |code| && code[pc..pc + |items|] == items
  }

  /** What happens at the end of a block of code, or where control leaves it. */
  function Onward(w: World, code: seq<Item>, pc: nat, t: Trace, flow: Flow, retval: int, jumps: nat, loops: nat): End {
    match flow
    case Fell => RunCode(w, code, pc, Machine(t, retval), jumps, loops)
    case Leaving => if jumps == 0 then Unfinished
                    else RunCode(w, code, Find(code, FinallyLabel), Machine(t, retval), jumps - 1, loops)
    case LeavingWith(v) => if jumps == 0 then Unfinished
                           else RunCode(w, code, Find(code, FinallyLabel), Machine(t, v), jumps - 1, loops)
    case Raised => if jumps == 0 then Unfinished
                   else RunCode(w, code, Find(code, CatchLabel), Machine(t, retval), jumps - 1, loops)
    case Abort => Aborted(t)
    case Stuck => Unfinished
  }

  lemma HeldRest(code: seq<Item>, pc: nat, items: seq<Item>)
    requires PartHeld(code, pc, items) && items != []
    ensures code[pc] == items[0] && PartHeld(code, pc + 1, items[1..])
  {
    var s := code[pc..pc + |items|];
    assert code[pc] == s[0] && code[pc + 1..pc + |items|] == s[1..];
  }

  lemma LoweredRest(b: seq<Stmt>)
    requires b != []
    ensures Lowered(b)[0] == Do(Rewrite(b[0])) && Lowered(b)[1..] == Lowered(b[1..])
  {
  }

  /** A block of rewritten statements does what the block does. */
  lemma {:induction false} BlockPreserved(w: World, code: seq<Item>, pc: nat, b: seq<Stmt>,
        t: Trace, retval: int, jumps: nat, loops: nat)
    requires PartHeld(code, pc, Lowered(b))
    ensures var (t', flow) := ExecBlock(w, b, t, retval == 0, loops);
            RunCode(w, code, pc, Machine(t, retval), jumps, loops) ==
            Onward(w, code, pc + |b|, t', flow, retval, jumps, loops)
    decreases |b|
  {
    if b != [] {
      HeldRest(code, pc, Lowered(b));
      LoweredRest(b);
      StatementPreserved(w, b[0], t, retval, loops);
      var (t', flow) := Exec(w, b[0], t, retval == 0, loops);
      if flow == Fell {
        BlockPreserved(w, code, pc + 1, b[1..], t', retval, jumps, loops);
      }
    }
  }

  // ----- the layout of a function

  /** The jump over catch. */
  function JumpPos(f: Func): nat
    requires ProperFunc(f)
  {
    |Prologue(f)| + |BodyItems(f)|
  }

  function CatchPos(f: Func): nat
    requires ProperFunc(f)
  {
    JumpPos(f) + 1
  }

  function FinallyPos(f: Func): nat
    requires ProperFunc(f)
  {
    CatchPos(f) + 1 + |CatchItems(f)|
  }

  function EndPos(f: Func): nat
    requires ProperFunc(f)
  {
    FinallyPos(f) + 1 + |FinallyItems(f)|
  }

  lemma HeldBetween(code: seq<Item>, front: seq<Item>, items: seq<Item>, rest: seq<Item>, pc: nat)
    requires code == front + items + rest && pc == |front|
    ensures PartHeld(code, pc, items)
  {
    assert code[pc..pc + |items|] == items;
  }

  lemma RegroupCode(a: seq<Item>, b: seq<Item>, c: seq<Item>, d: seq<Item>, e: seq<Item>, g: seq<Item>, h: seq<Item>)
    ensures a + (b + c + d + e + g + h) == (a + b + c + d + e) + g + h
    ensures a + (b + c + d + e + g + h) == (a + b + c) + d + (e + g + h)
    ensures a + (b + c + d + e + g + h) == a + b + (c + d + e + g + h)
    ensures a + (b + c + d + e + g + h) == [] + a + (b + c + d + e + g + h)
  {
  }

  /** The fixed items between the parts. */
  lemma FixedItems(a: seq<Item>, b: seq<Item>, d: seq<Item>, g: seq<Item>, x: Item, j: nat, c: nat, n: nat, e: nat)
    requires j == |a| + |b| && c == j + 1 && n == c + 1 + |d| && e == n + 1 + |g|
    ensures var code := a + (b + [GOTO_FINALLY, CatchLabel] + d + [FinallyLabel] + g + [x, ReturnRetval]);
            && |code| == e + 2
            && code[j] == GOTO_FINALLY && code[c] == CatchLabel && code[n] == FinallyLabel
            && code[e] == x && code[e + 1] == ReturnRetval
  {
  }

  lemma Layout(f: Func)
    requires ProperFunc(f)
    ensures var code := Emitted(f);
            && |code| == EndPos(f) + 2
            && code[JumpPos(f)] == GOTO_FINALLY && code[CatchPos(f)] == CatchLabel
            && code[FinallyPos(f)] == FinallyLabel
            && code[EndPos(f)] == Destroy(AutoLocals(f.decls)) && code[EndPos(f) + 1] == ReturnRetval
            && PartHeld(code, 0, Prologue(f)) && PartHeld(code, |Prologue(f)|, BodyItems(f))
            && PartHeld(code, CatchPos(f) + 1, CatchItems(f)) && PartHeld(code, FinallyPos(f) + 1, FinallyItems(f))
  {
    var a, b, d, g, x := Prologue(f), BodyItems(f), CatchItems(f), FinallyItems(f), Destroy(AutoLocals(f.decls));
    var jump, mark, end := [GOTO_FINALLY, CatchLabel], [FinallyLabel], [x, ReturnRetval];
    FixedItems(a, b, d, g, x, JumpPos(f), CatchPos(f), FinallyPos(f), EndPos(f));
    RegroupCode(a, b, jump, d, mark, g, end);
    HeldBetween(Emitted(f), [], a, b + jump + d + mark + g + end, 0);
    HeldBetween(Emitted(f), a, b, jump + d + mark + g + end, |a|);
    HeldBetween(Emitted(f), a + b + jump, d, mark + g + end, CatchPos(f) + 1);
    HeldBetween(Emitted(f), a + b + jump + d + mark, g, end, FinallyPos(f) + 1);
  }

  predicate Unlabelled(items: seq<Item>) {
    forall i :: 0 <= i < |items| ==> items[i] != CatchLabel && items[i] != FinallyLabel
  }

  /** No label but the two stands anywhere. */
  lemma OtherItems(a: seq<Item>, b: seq<Item>, d: seq<Item>, g: seq<Item>, x: Item, j: nat, c: nat, n: nat, e: nat, i: nat)
    requires Unlabelled(a) && Unlabelled(b) && Unlabelled(d) && Unlabelled(g) && Unlabelled([x])
    requires j == |a| + |b| && c == j + 1 && n == c + 1 + |d| && e == n + 1 + |g| && i < e + 2 && i != c && i != n
    ensures var code := a + (b + [GOTO_FINALLY, CatchLabel] + d + [FinallyLabel] + g + [x, ReturnRetval]);
            |code| == e + 2 && code[i] != CatchLabel && code[i] != FinallyLabel
  {
    FixedItems(a, b, d, g, x, j, c, n, e);
    assert [x][0] == x;
  }

  lemma PartsUnlabelled(f: Func)
    requires ProperFunc(f)
    ensures Unlabelled(Prologue(f)) && Unlabelled(BodyItems(f)) && Unlabelled(CatchItems(f)) && Unlabelled(FinallyItems(f))
    ensures Unlabelled([Destroy(AutoLocals(f.decls))])
  {
  }

  lemma NoOtherLabels(f: Func, i: nat)
    requires ProperFunc(f) && i < |Emitted(f)| && i != CatchPos(f) && i != FinallyPos(f)
    ensures Emitted(f)[i] != CatchLabel && Emitted(f)[i] != FinallyLabel
  {
    Layout(f);
    PartsUnlabelled(f);
    OtherItems(Prologue(f), BodyItems(f), CatchItems(f), FinallyItems(f), Destroy(AutoLocals(f.decls)),
               JumpPos(f), CatchPos(f), FinallyPos(f), EndPos(f), i);
  }

  /** The labels of an emitted function are where the layout puts them, and unique. */
  lemma Labels(f: Func)
    requires ProperFunc(f)
    ensures Find(Emitted(f), CatchLabel) == CatchPos(f) && Find(Emitted(f), FinallyLabel) == FinallyPos(f)
    ensures forall i :: 0 <= i < |Emitted(f)| ==>
              (Emitted(f)[i] == CatchLabel <==> i == CatchPos(f)) && (Emitted(f)[i] == FinallyLabel <==> i == FinallyPos(f))
  {
    Layout(f);
    forall i | 0 <= i < |Emitted(f)| && i != CatchPos(f) && i != FinallyPos(f)
      ensures Emitted(f)[i] != CatchLabel && Emitted(f)[i] != FinallyLabel
    {
      NoOtherLabels(f, i);
    }
  }

  lemma PartsHeld(code: seq<Item>, pc: nat, x: seq<Item>, y: seq<Item>)
    requires PartHeld(code, pc, x + y)
    ensures PartHeld(code, pc, x) && PartHeld(code, pc + |x|, y)
  {
    var s := code[pc..pc + |x + y|];
    assert code[pc..pc + |x|] == s[..|x|] == x;
    assert code[pc + |x|..pc + |x| + |y|] == s[|x|..] == y;
  }

  /** The statements of a block, with the jump that may follow but is never taken. */
  function Region(b: seq<Stmt>, never: bool): (r: seq<Item>)
    ensures |r| == |b| + if never then 1 else 0
  {
    Lowered(b) + if never then [NEVER] else []
  }

  lemma RegionPreserved(w: World, code: seq<Item>, pc: nat, b: seq<Stmt>, never: bool, end: nat,
        t: Trace, retval: int, jumps: nat, loops: nat)
    requires PartHeld(code, pc, Region(b, never)) && end == pc + |Region(b, never)|
    ensures var (t', flow) := ExecBlock(w, b, t, retval == 0, loops);
            RunCode(w, code, pc, Machine(t, retval), jumps, loops) == Onward(w, code, end, t', flow, retval, jumps, loops)
  {
    PartsHeld(code, pc, Lowered(b), if never then [NEVER] else []);
    BlockPreserved(w, code, pc, b, t, retval, jumps, loops);
    var (t', flow) := ExecBlock(w, b, t, retval == 0, loops);
    var mid := pc + |b|;
    if never {
      assert code[mid] == code[mid..mid + 1][0] == NEVER;
      assert RunCode(w, code, mid, Machine(t', retval), jumps, loops) ==
             RunCode(w, code, mid + 1, Machine(t', retval), jumps, loops);
    }
  }

  lemma {:induction false} PrologueRuns(f: Func, w: World, code: seq<Item>, pc: nat, m: Machine, jumps: nat, loops: nat)
    requires ProperFunc(f) && PartHeld(code, 0, Prologue(f)) && 1 <= pc <= |f.decls| + 1
    ensures RunCode(w, code, pc, m, jumps, loops) ==
            RunCode(w, code, |Prologue(f)|, m.(trace := m.trace + Create(AutoLocals(f.decls))), jumps, loops)
    decreases |f.decls| + 1 - pc
  {
    assert code[pc] == code[0..|Prologue(f)|][pc] == Prologue(f)[pc];
    if pc <= |f.decls| {
      PrologueRuns(f, w, code, pc + 1, m, jumps, loops);
    }
  }

  /** Behind finally come the destructors and the return. */
  lemma EndRuns(f: Func, w: World, m: Machine, jumps: nat, loops: nat)
    requires ProperFunc(f)
    ensures RunCode(w, Emitted(f), EndPos(f), m, jumps, loops) ==
            Returned(m.trace + DestroyAll(AutoLocals(f.decls)), m.retval)
  {
    Layout(f);
    var code, pc, m' := Emitted(f), EndPos(f), m.(trace := m.trace + DestroyAll(AutoLocals(f.decls)));
    assert RunCode(w, code, pc, m, jumps, loops) == RunCode(w, code, pc + 1, m', jumps, loops);
  }

  /** The regions of the layout. */
  lemma Regions(f: Func)
    requires ProperFunc(f)
    ensures var code := Emitted(f);
            && PartHeld(code, |Prologue(f)|, Region(f.body, f.onCatch.None? && f.onFinally.None?))
            && PartHeld(code, CatchPos(f) + 1, Region(BlockOf(f.onCatch), f.onCatch.Some? && f.onFinally.None?))
            && PartHeld(code, FinallyPos(f) + 1, Region(BlockOf(f.onFinally), f.onFinally.Some?))
  {
    Layout(f);
  }

  /** A label and the statements behind it. */
  lemma MarkedRuns(w: World, code: seq<Item>, pc: nat, b: seq<Stmt>, never: bool, end: nat,
        m: Machine, m': Machine, jumps: nat, loops: nat)
    requires pc < |code| && PartHeld(code, pc + 1, Region(b, never)) && end == pc + 1 + |Region(b, never)|
    requires (code[pc] == CatchLabel && m' == Machine(m.trace + [AtCatch], -1)) ||
             (code[pc] == FinallyLabel && m' == m.(trace := m.trace + [AtFinally]))
    ensures var (t', flow) := ExecBlock(w, b, m'.trace, m'.retval == 0, loops);
            RunCode(w, code, pc, m, jumps, loops) == Onward(w, code, end, t', flow, m'.retval, jumps, loops)
  {
    var first := pc + 1;
    assert RunCode(w, code, pc, m, jumps, loops) == RunCode(w, code, first, m', jumps, loops);
    RegionPreserved(w, code, first, b, never, end, m'.trace, m'.retval, jumps, loops);
  }

  /** Catch, from its label to the next. */
  lemma CatchRuns(f: Func, w: World, m: Machine, jumps: nat, loops: nat)
    requires ProperFunc(f)
    ensures var (t', flow) := ExecBlock(w, BlockOf(f.onCatch), m.trace + [AtCatch], false, loops);
            RunCode(w, Emitted(f), CatchPos(f), m, jumps, loops) ==
            Onward(w, Emitted(f), FinallyPos(f), t', flow, -1, jumps, loops)
  {
    Layout(f);
    Regions(f);
    MarkedRuns(w, Emitted(f), CatchPos(f), BlockOf(f.onCatch), f.onCatch.Some? && f.onFinally.None?, FinallyPos(f),
               m, Machine(m.trace + [AtCatch], -1), jumps, loops);
  }

  /** Finally, from its label to the destructors. */
  lemma FinallyRuns(f: Func, w: World, m: Machine, jumps: nat, loops: nat)
    requires ProperFunc(f)
    ensures var (t', flow) := ExecBlock(w, BlockOf(f.onFinally), m.trace + [AtFinally], m.retval == 0, loops);
            RunCode(w, Emitted(f), FinallyPos(f), m, jumps, loops) ==
            Onward(w, Emitted(f), EndPos(f), t', flow, m.retval, jumps, loops)
  {
    Layout(f);
    Regions(f);
    MarkedRuns(w, Emitted(f), FinallyPos(f), BlockOf(f.onFinally), f.onFinally.Some?, EndPos(f),
               m, m.(trace := m.trace + [AtFinally]), jumps, loops);
  }

  /** The body, from the first statement to the jump behind the last. */
  lemma BodyRuns(f: Func, w: World, retval: int, jumps: nat, loops: nat)
    requires ProperFunc(f)
    ensures var (t', flow) := ExecBlock(w, f.body, Create(AutoLocals(f.decls)), true, loops);
            RunCode(w, Emitted(f), 0, Machine([], retval), jumps, loops) ==
            Onward(w, Emitted(f), JumpPos(f), t', flow, 0, jumps, loops)
  {
    Layout(f);
    Regions(f);
    var code, p := Emitted(f), |Prologue(f)|;
    assert code[0] == code[0..p][0] == Enter;
    assert RunCode(w, code, 0, Machine([], retval), jumps, loops) == RunCode(w, code, 1, Machine([], 0), jumps, loops);
    PrologueRuns(f, w, code, 1, Machine([], 0), jumps, loops);
    var t := Create(AutoLocals(f.decls));
    assert [] + t == t;
    RegionPreserved(w, code, p, f.body, f.onCatch.None? && f.onFinally.None?, JumpPos(f), t, 0, jumps, loops);
  }

  lemma Targets(f: Func)
    requires ProperFunc(f)
    ensures Find(Emitted(f), CatchLabel) == CatchPos(f) && Find(Emitted(f), FinallyLabel) == FinallyPos(f)
  {
    Labels(f);
  }

  lemma {:induction false} CatchPreserved(f: Func, w: World, m: Machine, jumps: nat, loops: nat)
    requires ProperFunc(f)
    ensures RunCode(w, Emitted(f), CatchPos(f), m, jumps, loops) == MeaningOfCatch(f, w, m.trace, jumps, loops)
    decreases jumps, 3
  {
    CatchRuns(f, w, m, jumps, loops);
    var (t, flow) := ExecBlock(w, BlockOf(f.onCatch), m.trace + [AtCatch], false, loops);
    if flow == Fell {
      FinallyPreserved(f, w, Machine(t, -1), jumps, loops);
    } else if jumps > 0 {
      LeftForLabel(f, w, FinallyPos(f), t, flow, -1, jumps, jumps - 1, loops);
    }
  }

  lemma {:induction false} FinallyPreserved(f: Func, w: World, m: Machine, jumps: nat, loops: nat)
    requires ProperFunc(f)
    ensures RunCode(w, Emitted(f), FinallyPos(f), m, jumps, loops) == MeaningOfFinally(f, w, m.trace, m.retval, jumps, loops)
    decreases jumps, 2
  {
    FinallyRuns(f, w, m, jumps, loops);
    var (t, flow) := ExecBlock(w, BlockOf(f.onFinally), m.trace + [AtFinally], m.retval == 0, loops);
    if flow == Fell {
      EndRuns(f, w, Machine(t, m.retval), jumps, loops);
    } else if jumps > 0 {
      LeftForLabel(f, w, EndPos(f), t, flow, m.retval, jumps, jumps - 1, loops);
    }
  }

  /** A block of catch or finally that is left for a label. */
  lemma {:induction false} LeftForLabel(f: Func, w: World, pc: nat, t: Trace, flow: Flow, retval: int,
                                        jumps: nat, k: nat, loops: nat)
    requires ProperFunc(f) && jumps == k + 1
    ensures var r := Onward(w, Emitted(f), pc, t, flow, retval, jumps, loops);
            match flow
            case Leaving => r == MeaningOfFinally(f, w, t, retval, k, loops)
            case LeavingWith(v) => r == MeaningOfFinally(f, w, t, v, k, loops)
            case Raised => r == MeaningOfCatch(f, w, t, k, loops)
            case _ => true
    decreases k, 4
  {
    Targets(f);
    match flow
    case Leaving => FinallyPreserved(f, w, Machine(t, retval), k, loops);
    case LeavingWith(v) => FinallyPreserved(f, w, Machine(t, v), k, loops);
    case Raised => CatchPreserved(f, w, Machine(t, retval), k, loops);
    case _ =>
  }

  lemma JumpRuns(w: World, code: seq<Item>, pc: nat, m: Machine, jumps: nat, loops: nat)
    requires pc < |code| && code[pc] == GOTO_FINALLY
    ensures RunCode(w, code, pc, m, jumps, loops) ==
            if jumps == 0 then Unfinished else RunCode(w, code, Find(code, FinallyLabel), m, jumps - 1, loops)
  {
  }

  /** The jump over catch. */
  lemma BodyFallsToFinally(f: Func, w: World, m: Machine, jumps: nat, loops: nat)
    requires ProperFunc(f)
    ensures RunCode(w, Emitted(f), JumpPos(f), m, jumps, loops) ==
            if jumps == 0 then Unfinished else RunCode(w, Emitted(f), FinallyPos(f), m, jumps - 1, loops)
  {
    Layout(f);
    Targets(f);
    JumpRuns(w, Emitted(f), JumpPos(f), m, jumps, loops);
  }

  lemma BodyLeft(f: Func, w: World, t: Trace, flow: Flow, jumps: nat, loops: nat)
    requires ProperFunc(f)
    ensures Onward(w, Emitted(f), JumpPos(f), t, flow, 0, jumps, loops) == AfterBody(f, w, t, flow, jumps, loops)
  {
    if flow == Fell {
      BodyFallsToFinally(f, w, Machine(t, 0), jumps, loops);
    }
    Targets(f);
    if jumps > 0 {
      var k: nat := jumps - 1;
      match flow
      case Raised => CatchPreserved(f, w, Machine(t, 0), k, loops);
      case Abort =>
      case Stuck =>
      case _ => FinallyPreserved(f, w, Machine(t, CodeOf(flow)), k, loops);
    }
  }

  /** The emitted code means what the function means, step for step and loop for loop: the same
      events, the same return code, and the same jumps taken. */
  lemma LoweringPreservesMeaning(f: Func, w: World, retval: int, jumps: nat, loops: nat)
    requires ProperFunc(f)
    ensures RunCode(w, Emitted(f), 0, Machine([], retval), jumps, loops) == Meaning(f, w, jumps, loops)
  {
    BodyRuns(f, w, retval, jumps, loops);
    var (t, flow) := ExecBlock(w, f.body, Create(AutoLocals(f.decls)), true, loops);
    BodyLeft(f, w, t, flow, jumps, loops);
  }

  /** The same for a function translated in the middle of any file. */
  lemma TranslationPreservesMeaning(st: State, f: Func, w: World, retval: int, jumps: nat, loops: nat)
    requires ProperFunc(f)
    ensures RunCode(w, Translated(st, LinesOf(f)), 0, Machine([], retval), jumps, loops) == Meaning(f, w, jumps, loops)
  {
    FunctionEmitted(st, f);
    LoweringPreservesMeaning(f, w, retval, jumps, loops);
  }
}
