/** The line translator of ncc: what `parser` makes of the labels, returns and declarations of
    a Natural C source file. */
module Translator {
  import opened Bytes

  /** A statement, with the statements it controls. Bare library calls are Try. */
  datatype Stmt =
    | Act(n: nat)
    | Try(n: nat)
    | Throw
    | Raise
    | Return(e: nat)
    | Leave
    | If(c: nat, thn: Stmt, els: Stmt)
    | While(c: nat, body: Stmt)
    | Then(first: Stmt, second: Stmt)
    | Skip

  /** The statements ncc emits. Raised is the guarded macro, SetAndLeave the rewritten return. */
  datatype CStmt =
    | CAct(n: nat)
    | CTry(n: nat)
    | CReturnError
    | CRaise
    | CSetAndLeave(e: nat)
    | CGotoFinally
    | CIf(c: nat, thn: CStmt, els: CStmt)
    | CWhile(c: nat, body: CStmt)
    | CThen(first: CStmt, second: CStmt)
    | CSkip

  /** Return lines are rewritten where they stand; the macros expand in place. */
  function Rewrite(s: Stmt): CStmt {
    match s
    case Act(n) => CAct(n)
    case Try(n) => CTry(n)
    case Throw => CReturnError
    case Raise => CRaise
    case Return(e) => CSetAndLeave(e)
    case Leave => CGotoFinally
    case If(c, a, b) => CIf(c, Rewrite(a), Rewrite(b))
    case While(c, b) => CWhile(c, Rewrite(b))
    case Then(a, b) => CThen(Rewrite(a), Rewrite(b))
    case Skip => CSkip
  }

  datatype Var = Var(name: string, initialized: bool)

  /** Classified source lines. */
  datatype Line =
    | Open
    | Decl(natural: bool, vars: seq<Var>)
    | Blank
    | CatchLine
    | FinallyLine
    | Code(s: Stmt)
    | Close

  /** Pieces of emitted code. CatchLabel also sets __retval to -1. */
  datatype Item =
    | Enter
    | Declare(vars: seq<Var>)
    | New(names: seq<string>)
    | Do(s: CStmt)
    | CatchLabel
    | FinallyLabel
    | Destroy(names: seq<string>)
    | ReturnRetval

  const GOTO_FINALLY := Do(CGotoFinally)
  const NEVER := Do(CSkip)  // if (0) goto catch;

  /** The locals a declaration leaves to the compiler. */
  function AutoVars(vars: seq<Var>): seq<string> {
    if vars == [] then []
    else (if vars[0].initialized then [] else [vars[0].name]) + AutoVars(vars[1..])
  }

  function AutoLocals(preamble: seq<Line>): seq<string> {
    if preamble == [] then []
    else (if preamble[0].Decl? && preamble[0].natural then AutoVars(preamble[0].vars) else []) + AutoLocals(preamble[1..])
  }

  /** The variables of `parser` that outlive a line. */
  datatype State = State(inPreamble: bool, hasCatch: bool, hasFinally: bool, preamble: seq<Line>, autos: seq<string>)

  const FILE_START := State(false, false, false, [], [])

  function AfterLine(st: State, line: Line): State {
    var s := if st.inPreamble && line != Open then st.(preamble := st.preamble + [line]) else st;
    match line
    case Open => s.(inPreamble := true, hasCatch := false, hasFinally := false, preamble := [])
    case Blank => if s.inPreamble then s.(inPreamble := false, preamble := [], autos := AutoLocals(s.preamble)) else s
    case CatchLine => s.(hasCatch := true)
    case FinallyLine => s.(hasFinally := true, hasCatch := true)
    case _ => s
  }

  function Emit(st: State, line: Line): seq<Item> {
    match line
    case Open => [Enter]
    case Decl(_, vars) => [Declare(vars)]
    case Blank => if st.inPreamble then [New(AutoLocals(st.preamble))] else []
    case CatchLine => [GOTO_FINALLY, CatchLabel]
    case FinallyLine => if st.hasCatch then [FinallyLabel] else [GOTO_FINALLY, CatchLabel, FinallyLabel]
    case Code(s) => [Do(Rewrite(s))]
    case Close =>
      [NEVER]
      + (if st.hasCatch then [] else [GOTO_FINALLY, CatchLabel])
      + (if st.hasFinally then [] else [FinallyLabel])
      + [Destroy(st.autos), ReturnRetval]
  }

  function Translated(st: State, lines: seq<Line>): seq<Item>
    decreases |lines|
  {
    if lines == [] then [] else Emit(st, lines[0]) + Translated(AfterLine(st, lines[0]), lines[1..])
  }

  function After(st: State, lines: seq<Line>): State
    decreases |lines|
  {
    if lines == [] then st else After(AfterLine(st, lines[0]), lines[1..])
  }

  /** The variables and the output of `parser`. */
  class Parser {
    var inPreamble: bool
    var hasCatch: bool
    var hasFinally: bool
    var preamble: seq<Line>
    var autos: seq<string>
    var out: seq<Item>

    ghost function Vars(): State
      reads this
    {
      State(inPreamble, hasCatch, hasFinally, preamble, autos)
    }

    constructor ()
      ensures Vars() == FILE_START && out == []
    {
      inPreamble, hasCatch, hasFinally := false, false, false;
      preamble, autos, out := [], [], [];
    }

    /** One pass of the loop over the input lines. */
    method ParseLine(line: Line)
      modifies this
      ensures Vars() == AfterLine(old(Vars()), line)
      ensures out == old(out) + Emit(old(Vars()), line)
    {
      if inPreamble && line != Open {
        preamble := preamble + [line];
      }
      match line {
        case Open =>
          preamble := [];
          inPreamble, hasCatch, hasFinally := true, false, false;
          out := out + [Enter];
        case Decl(_, vars) =>
          out := out + [Declare(vars)];
        case Blank =>
          if inPreamble {
            AutoLocalsBlank(old(preamble));
            autos := AutoLocals(preamble);
            inPreamble := false;
            preamble := [];
            out := out + [New(autos)];
          }
        case CatchLine =>
          hasCatch := true;
          out := out + [GOTO_FINALLY, CatchLabel];
        case FinallyLine =>
          hasFinally := true;
          if !hasCatch {
            hasCatch := true;
            out := out + [GOTO_FINALLY, CatchLabel, FinallyLabel];
          } else {
            out := out + [FinallyLabel];
          }
        case Code(s) =>
          out := out + [Do(Rewrite(s))];
        case Close =>
          var s := [NEVER];
          if !hasCatch {
            s := s + [GOTO_FINALLY, CatchLabel];
          }
          if !hasFinally {
            s := s + [FinallyLabel];
          }
          s := s + [Destroy(autos), ReturnRetval];
          out := out + s;
      }
    }
  }

  lemma OneLineOn(out: seq<Item>, st: State, input: seq<Line>, i: nat)
    requires i < |input|
    ensures out + Translated(st, input[i..]) ==
            (out + Emit(st, input[i])) + Translated(AfterLine(st, input[i]), input[i + 1..])
  {
    assert input[i..][0] == input[i] && input[i..][1..] == input[i + 1..];
  }

  /** `parser` on a whole file. */
  method Parse(input: seq<Line>) returns (out: seq<Item>)
    ensures out == Translated(FILE_START, input)
  {
    var p := new Parser();
    for i := 0 to |input|
      invariant fresh(p) && p.out + Translated(p.Vars(), input[i..]) == Translated(FILE_START, input)
    {
      OneLineOn(p.out, p.Vars(), input, i);
      p.ParseLine(input[i]);
    }
    assert input[|input|..] == [];
    out := p.out;
  }

  lemma {:induction false} AutoLocalsBlank(p: seq<Line>)
    ensures AutoLocals(p + [Blank]) == AutoLocals(p)
  {
    if p == [] {
      assert [Blank][1..] == [];
    } else {
      assert (p + [Blank])[1..] == p[1..] + [Blank];
      AutoLocalsBlank(p[1..]);
    }
  }

  // ----- whole functions

  /** A function as the specification describes it: declarations, a body, and optional catch
      and finally blocks, in this order. */
  datatype Func = Func(decls: seq<Line>, body: seq<Stmt>, onCatch: Option<seq<Stmt>>, onFinally: Option<seq<Stmt>>)

  predicate ProperFunc(f: Func) {
    forall i :: 0 <= i < |f.decls| ==> f.decls[i].Decl?
  }

  function CodeLines(b: seq<Stmt>): seq<Line> {
    seq(|b|, i requires 0 <= i < |b| => Code(b[i]))
  }

  /** The lines of a function; a blank line ends its declarations. */
  function LinesOf(f: Func): seq<Line> {
    [Open] + f.decls + [Blank] + CodeLines(f.body) + CatchLines(f) + FinallyLines(f) + [Close]
  }

  function Lowered(b: seq<Stmt>): seq<Item> {
    seq(|b|, i requires 0 <= i < |b| => Do(Rewrite(b[i])))
  }

  function Declares(decls: seq<Line>): seq<Item>
    requires forall i :: 0 <= i < |decls| ==> decls[i].Decl?
  {
    seq(|decls|, i requires 0 <= i < |decls| => Declare(decls[i].vars))
  }

  function BlockOf(b: Option<seq<Stmt>>): seq<Stmt> {
    if b.Some? then b.value else []
  }

  /** The statements between the function's start, its two labels and its end. The jump that
      is never taken stands before the label that comes last. */
  function BodyItems(f: Func): seq<Item> {
    Lowered(f.body) + if f.onCatch.None? && f.onFinally.None? then [NEVER] else []
  }

  function CatchItems(f: Func): seq<Item> {
    Lowered(BlockOf(f.onCatch)) + if f.onCatch.Some? && f.onFinally.None? then [NEVER] else []
  }

  function FinallyItems(f: Func): seq<Item> {
    Lowered(BlockOf(f.onFinally)) + if f.onFinally.Some? then [NEVER] else []
  }

  function Prologue(f: Func): seq<Item>
    requires ProperFunc(f)
  {
    [Enter] + Declares(f.decls) + [New(AutoLocals(f.decls))]
  }

  /** The layout of every emitted function. */
  function Emitted(f: Func): seq<Item>
    requires ProperFunc(f)
  {
    Prologue(f) + Core(f)
  }

  function Core(f: Func): seq<Item> {
    BodyItems(f) + [GOTO_FINALLY, CatchLabel] + CatchItems(f) + [FinallyLabel] + FinallyItems(f)
    + [Destroy(AutoLocals(f.decls)), ReturnRetval]
  }

  lemma {:induction false} TranslatedConcat(st: State, a: seq<Line>, b: seq<Line>)
    ensures Translated(st, a + b) == Translated(st, a) + Translated(After(st, a), b)
    ensures After(st, a + b) == After(After(st, a), b)
    decreases |a|
  {
    if a == [] {
      assert a + b == b;
    } else {
      assert (a + b)[1..] == a[1..] + b;
      TranslatedConcat(AfterLine(st, a[0]), a[1..], b);
    }
  }

  lemma {:induction false} TranslatedCode(st: State, b: seq<Stmt>)
    requires !st.inPreamble
    ensures Translated(st, CodeLines(b)) == Lowered(b) && After(st, CodeLines(b)) == st
    decreases |b|
  {
    if b != [] {
      assert CodeLines(b)[1..] == CodeLines(b[1..]);
      assert Lowered(b) == [Do(Rewrite(b[0]))] + Lowered(b[1..]);
      TranslatedCode(st, b[1..]);
    }
  }

  lemma {:induction false} TranslatedDecls(st: State, d: seq<Line>)
    requires st.inPreamble && forall i :: 0 <= i < |d| ==> d[i].Decl?
    ensures Translated(st, d) == Declares(d) && After(st, d) == st.(preamble := st.preamble + d)
    decreases |d|
  {
    if d == [] {
      assert st.preamble + d == st.preamble;
    } else {
      TranslatedDecls(AfterLine(st, d[0]), d[1..]);
      assert st.preamble + [d[0]] + d[1..] == st.preamble + d;
      assert Declares(d) == [Declare(d[0].vars)] + Declares(d[1..]);
    }
  }

  lemma PrologueEmitted(st: State, f: Func)
    requires ProperFunc(f)
    ensures var l := [Open] + f.decls + [Blank];
            Translated(st, l) == Prologue(f) && After(st, l) == State(false, false, false, [], AutoLocals(f.decls))
  {
    TranslatedConcat(st, [Open] + f.decls, [Blank]);
    TranslatedConcat(st, [Open], f.decls);
    OneLine(st, Open);
    var s := AfterLine(st, Open);
    TranslatedDecls(s, f.decls);
    assert [] + f.decls == f.decls;
    OneLine(s.(preamble := f.decls), Blank);
    AutoLocalsBlank(f.decls);
  }

  lemma OneLine(st: State, line: Line)
    ensures Translated(st, [line]) == Emit(st, line) && After(st, [line]) == AfterLine(st, line)
  {
    assert [line][1..] == [];
    assert Emit(st, line) + [] == Emit(st, line);
  }

  /** A label line and the block behind it. */
  lemma BlockEmitted(st: State, mark: Line, b: seq<Stmt>)
    requires !st.inPreamble && (mark == CatchLine || mark == FinallyLine)
    ensures Translated(st, [mark] + CodeLines(b)) == Emit(st, mark) + Lowered(b)
    ensures After(st, [mark] + CodeLines(b)) == AfterLine(st, mark)
  {
    TranslatedConcat(st, [mark], CodeLines(b));
    OneLine(st, mark);
    TranslatedCode(AfterLine(st, mark), b);
  }

  function CatchLines(f: Func): seq<Line> {
    if f.onCatch.Some? then [CatchLine] + CodeLines(f.onCatch.value) else []
  }

  function FinallyLines(f: Func): seq<Line> {
    if f.onFinally.Some? then [FinallyLine] + CodeLines(f.onFinally.value) else []
  }

  /** What is emitted for the catch block, the finally block and the end of a function. */
  function CatchPart(f: Func): seq<Item> {
    if f.onCatch.Some? then [GOTO_FINALLY, CatchLabel] + Lowered(f.onCatch.value) else []
  }

  function FinallyPart(f: Func): seq<Item> {
    if f.onFinally.Some? then
      (if f.onCatch.Some? then [FinallyLabel] else [GOTO_FINALLY, CatchLabel, FinallyLabel]) + Lowered(f.onFinally.value)
    else []
  }

  function ClosePart(f: Func): seq<Item> {
    [NEVER]
    + (if f.onCatch.Some? || f.onFinally.Some? then [] else [GOTO_FINALLY, CatchLabel])
    + (if f.onFinally.Some? then [] else [FinallyLabel])
    + [Destroy(AutoLocals(f.decls)), ReturnRetval]
  }

  lemma BlocksEmitted(st: State, f: Func)
    requires st == State(false, false, false, [], AutoLocals(f.decls))
    ensures Translated(st, CatchLines(f) + FinallyLines(f) + [Close]) == CatchPart(f) + FinallyPart(f) + ClosePart(f)
  {
    if f.onCatch.Some? {
      BlockEmitted(st, CatchLine, f.onCatch.value);
    }
    var s := After(st, CatchLines(f));
    if f.onFinally.Some? {
      BlockEmitted(s, FinallyLine, f.onFinally.value);
    }
    TranslatedConcat(st, CatchLines(f) + FinallyLines(f), [Close]);
    TranslatedConcat(st, CatchLines(f), FinallyLines(f));
    OneLine(After(s, FinallyLines(f)), Close);
  }

  /** In all four cases the parts make up the one layout. */
  lemma PartsAreCore(f: Func)
    ensures Lowered(f.body) + (CatchPart(f) + FinallyPart(f) + ClosePart(f)) == Core(f)
  {
    if f.onCatch.None? {
      assert Lowered(BlockOf(f.onCatch)) == [];
    }
    if f.onFinally.None? {
      assert Lowered(BlockOf(f.onFinally)) == [];
    }
  }

  /** Whatever came before it in the file, a function with a blank line behind its declarations
      is emitted in the one layout. */
  lemma FunctionEmitted(st: State, f: Func)
    requires ProperFunc(f)
    ensures Translated(st, LinesOf(f)) == Emitted(f)
  {
    var l, e := [Open] + f.decls + [Blank], CatchLines(f) + FinallyLines(f) + [Close];
    LinesInParts(f);
    PrologueEmitted(st, f);
    TranslatedConcat(st, l, CodeLines(f.body) + e);
    var s := After(st, l);
    TranslatedConcat(s, CodeLines(f.body), e);
    TranslatedCode(s, f.body);
    BlocksEmitted(s, f);
    PartsAreCore(f);
  }

  lemma LinesInParts(f: Func)
    ensures LinesOf(f) == ([Open] + f.decls + [Blank]) + (CodeLines(f.body) + (CatchLines(f) + FinallyLines(f) + [Close]))
  {
  }

  function FileLines(fs: seq<Func>): seq<Line> {
    if fs == [] then [] else LinesOf(fs[0]) + FileLines(fs[1..])
  }

  function FileEmitted(fs: seq<Func>): seq<Item>
    requires forall i :: 0 <= i < |fs| ==> ProperFunc(fs[i])
  {
    if fs == [] then [] else Emitted(fs[0]) + FileEmitted(fs[1..])
  }

  /** The functions of a file do not influence each other. */
  lemma {:induction false} FileIsolates(st: State, fs: seq<Func>)
    requires forall i :: 0 <= i < |fs| ==> ProperFunc(fs[i])
    ensures Translated(st, FileLines(fs)) == FileEmitted(fs)
    decreases |fs|
  {
    if fs != [] {
      TranslatedConcat(st, LinesOf(fs[0]), FileLines(fs[1..]));
      FunctionEmitted(st, fs[0]);
      FileIsolates(After(st, LinesOf(fs[0])), fs[1..]);
    }
  }

  predicate CreatesNothing(code: seq<Item>) { forall i :: 0 <= i < |code| ==> !code[i].New? }

  predicate Inside(line: Line) { line != Open && line != Blank && line != Close }

  lemma {:induction false} NothingCreated(st: State, lines: seq<Line>)
    requires forall i :: 0 <= i < |lines| ==> Inside(lines[i])
    ensures CreatesNothing(Translated(st, lines)) && After(st, lines).autos == st.autos
    decreases |lines|
  {
    if lines != [] {
      NothingCreated(AfterLine(st, lines[0]), lines[1..]);
    }
  }

  lemma CloseEnds(st: State)
    ensures var l := Emit(st, Close); |l| >= 2 && l[|l| - 2..] == [Destroy(st.autos), ReturnRetval] && CreatesNothing(l)
  {
  }

  lemma TailOf<T>(a: seq<T>, b: seq<T>, n: nat)
    requires n <= |b|
    ensures (a + b)[|a + b| - n..] == b[|b| - n..]
  {
  }

  /** A function with no blank line at all creates none of its own locals, and destroys the
      locals of the function before it. */
  lemma MissingBlankLeaks(st: State, lines: seq<Line>)
    requires forall i :: 0 <= i < |lines| ==> Inside(lines[i])
    ensures var code := Translated(st, [Open] + lines + [Close]);
            && CreatesNothing(code)
            && |code| >= 2 && code[|code| - 2..] == [Destroy(st.autos), ReturnRetval]
  {
    TranslatedConcat(st, [Open] + lines, [Close]);
    TranslatedConcat(st, [Open], lines);
    OneLine(st, Open);
    var s := AfterLine(st, Open);
    NothingCreated(s, lines);
    var end := After(s, lines);
    OneLine(end, Close);
    CloseEnds(end);
    TailOf([Enter] + Translated(s, lines), Emit(end, Close), 2);
  }
}
