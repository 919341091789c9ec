/**
  What it means for generated code to end the way a Pascal statement ends, and the loops: each lowered
  loop simulates its Pascal loop if the code of its body simulates the body.
 */
module Simulation {
  import opened Wrappers
  import opened Carriers
  import opened Pascal
  import opened Cxx
  import opened Lowering

  /** What the generated code has to do when the Pascal statement ends with `o`: jump to the labels of
      the innermost loop, return the result slot, or throw; and leave every temporary as it was. */
  function Image(o: Outcome, c: Context, tmp: Temps): TOut {
    match o
    case Done(st) => Falls(State(st, tmp))
    case Broke(st) => if c.InLoop() then Goes(BreakLabel(c.Top()), State(st, tmp)) else Breaks(State(st, tmp))
    case Continued(st) =>
      if c.InLoop() then Goes(ContinueLabel(c.Top()), State(st, tmp)) else Continues(State(st, tmp))
    case Exited(st) => Returns(st.result, State(st, tmp))
    case Raised(e, st) => Throws(e, State(st, tmp))
    case Timeout => TTimeout
    case _ => IllFormed
  }

  /** A run the theorem speaks about: no error by Pascal's rules, no departure of the translation. */
  predicate Legal(o: Outcome) {
    !o.Undefined? && !o.Outside?
  }

  predicate Matches(o: Outcome, t: TOut, c: Context, tmp: Temps) {
    Legal(o) ==> t == Image(o, c, tmp)
  }

  /** The enclosing loops were numbered before the counter reached `n`. */
  predicate Numbered(c: Context, n: Counters) {
    forall k :: k in c.loops ==> k <= n.loops
  }

  // ----- labels of generated code

  lemma {:induction false} CounterGrows(s: Stmt, c: Context, n: Counters)
    ensures n.loops <= Lower(s, c, n).n.loops
    decreases s, 1
  {
    hide LowerSeq, LowerElse, LowerArms, LowerHandlers, FreshName, ForBlock, SetBlock, CaseChain, HandlerChain;
    var k := n.(loops := n.loops + 1);
    match s
    case Compound(stmts) => CounterGrowsSeq(stmts, c, n);
    case If(_, thn, els) =>
      CounterGrows(thn, c, n);
      CounterGrowsElse(els, c, Lower(thn, c, n).n);
    case While(_, body) => CounterGrows(body, c.Loop(k.loops), k);
    case Repeat(stmts, _) => CounterGrowsSeq(stmts, c.Loop(k.loops), k);
    case For(_, _, _, _, _, body) => CounterGrows(body, c.Loop(k.loops), k);
    case ForInSet(_, _, _, _, _, body) => CounterGrows(body, c.Loop(k.loops), k);
    case Case(_, arms, els) =>
      var c' := c.(scope := c.scope + {FreshName(CaseName(n.cases + 1), c.scope)});
      var n' := n.(cases := n.cases + 1);
      CounterGrowsArms(arms, c', n');
      CounterGrowsElse(els, c', LowerArms(arms, c', n').1);
    case TryFinally(_, _) => CounterGrowsTry(s, c, n);
    case TryExcept(_, _, _) => CounterGrowsTry(s, c, n);
    case _ =>
  }

  lemma {:induction false} CounterGrowsTry(s: Stmt, c: Context, n: Counters)
    requires s.TryFinally? || s.TryExcept?
    ensures n.loops <= Lower(s, c, n).n.loops
    decreases s, 0
  {
    hide LowerSeq, LowerElse, LowerHandlers, HandlerChain;
    match s
    case TryFinally(stmts, fin) =>
      var n' := n.(tries := n.tries + 1);
      CounterGrowsSeq(fin, c, n');
      CounterGrowsSeq(stmts, c, LowerSeq(fin, c, n').n);
    case TryExcept(stmts, handlers, els) =>
      var n' := n.(tries := n.tries + 1);
      CounterGrowsSeq(stmts, c, n');
      var n1 := LowerSeq(stmts, c, n').n;
      CounterGrowsHandlers(handlers, c, n1);
      var n2 := if handlers == [] then n1 else LowerHandlers(handlers, c, n1).1;
      CounterGrowsElse(els, c.Handler(None), n2);
      CounterGrowsElse(els, c.Handler(None), LowerElse(els, c.Handler(None), n2).n);
  }

  lemma {:induction false} CounterGrowsSeq(ss: seq<Stmt>, c: Context, n: Counters)
    ensures n.loops <= LowerSeq(ss, c, n).n.loops
    decreases ss, 0
  {
    if ss != [] {
      CounterGrows(ss[0], c, n);
      CounterGrowsSeq(ss[1..], c, Lower(ss[0], c, n).n);
    }
  }

  lemma {:induction false} CounterGrowsElse(els: Option<Stmt>, c: Context, n: Counters)
    ensures n.loops <= LowerElse(els, c, n).n.loops
    decreases els, 0
  {
    if els.Some? {
      CounterGrows(els.value, c, n);
    }
  }

  lemma {:induction false} CounterGrowsArms(arms: seq<Arm>, c: Context, n: Counters)
    ensures n.loops <= LowerArms(arms, c, n).1.loops
    decreases arms, 0
  {
    if arms != [] {
      CounterGrows(arms[0].body, c, n);
      CounterGrowsArms(arms[1..], c, Lower(arms[0].body, c, n).n);
    }
  }

  lemma {:induction false} CounterGrowsHandlers(hs: seq<Handler>, c: Context, n: Counters)
    ensures n.loops <= LowerHandlers(hs, c, n).1.loops
    decreases hs, 0
  {
    if hs != [] {
      var first := hs[0];
      assert (hs decreases to first);
      assert (first decreases to first.body);
      CounterGrows(first.body, c.Handler(first.binder), n);
      CounterGrowsHandlers(hs[1..], c, Lower(first.body, c.Handler(first.binder), n).n);
    }
  }

  /** A statement's block defines no label of an enclosing loop. */
  lemma NoOldLabel(s: Stmt, c: Context, n: Counters, l: Label)
    requires l.n <= n.loops
    ensures LabelAt(Lower(s, c, n).code, l) < 0
  {
    var code := Lower(s, c, n).code;
    if |code| == 1 {
      NotAt1(code[0], l);
      assert code == [code[0]];
    } else {
      NotAt2(code[0], code[1], l);
      assert code == [code[0], code[1]];
    }
  }

  lemma NotAt1(t: TStmt, l: Label)
    requires t != TLabel(l)
    ensures LabelAt([t], l) < 0
  {
    assert [t][1..] == [];
  }

  lemma NotAt2(t: TStmt, u: TStmt, l: Label)
    requires t != TLabel(l) && u != TLabel(l)
    ensures LabelAt([t, u], l) < 0
  {
    assert [t, u][1..] == [u];
    NotAt1(u, l);
  }

  lemma {:induction false} NoOldLabelSeq(ss: seq<Stmt>, c: Context, n: Counters, l: Label)
    requires l.n <= n.loops
    ensures LabelAt(LowerSeq(ss, c, n).code, l) < 0
  {
    if ss != [] {
      var r1 := Lower(ss[0], c, n);
      NoOldLabel(ss[0], c, n, l);
      CounterGrows(ss[0], c, n);
      NoOldLabelSeq(ss[1..], c, r1.n, l);
      LabelAtAppend(r1.code, LowerSeq(ss[1..], c, r1.n).code, l);
    }
  }

  // ----- the blocks around a loop body

  /** The effect of the break label behind a loop. */
  function CatchBreak(o: TOut, k: nat): TOut {
    if o.Goes? && o.l == BreakLabel(k) then Falls(o.s) else o
  }

  /** The effect of the continue label at the end of a loop body. */
  function CatchContinue(o: TOut, k: nat): TOut {
    if o.Goes? && o.l == ContinueLabel(k) then Falls(o.s) else o
  }

  lemma ResumeLabel(isa: (nat, nat) -> bool, o: TOut, l: Label, h: Option<Exc>, fuel: nat)
    ensures Resume(isa, o, [TLabel(l)], h, fuel) == if o.Goes? && o.l == l then Falls(o.s) else o
  {
    var rest := [TLabel(l)];
    assert rest[1..] == [];
    if o.Falls? {
      ExecOne(isa, TLabel(l), h, o.s, fuel);
    } else if o.Goes? && o.l == l {
      GotoFound(isa, l, o.s, rest, h, fuel, 0);
    } else if o.Goes? {
      NotAt1(TLabel(l), o.l);
    }
  }

  lemma LoopBlock(isa: (nat, nat) -> bool, t: TStmt, k: nat, h: Option<Exc>, s: State, fuel: nat)
    ensures ExecBlock(isa, [t, TLabel(BreakLabel(k))], h, s, fuel) == CatchBreak(Exec(isa, t, h, s, fuel), k)
  {
    assert [t, TLabel(BreakLabel(k))][1..] == [TLabel(BreakLabel(k))];
    ResumeLabel(isa, Exec(isa, t, h, s, fuel), BreakLabel(k), h, fuel);
  }

  lemma LoopBody(isa: (nat, nat) -> bool, body: Code, k: nat, h: Option<Exc>, s: State, fuel: nat)
    ensures ExecBlock(isa, body + [TLabel(ContinueLabel(k))], h, s, fuel) ==
            CatchContinue(ExecBlock(isa, body, h, s, fuel), k)
  {
    ExecAppend(isa, body, [TLabel(ContinueLabel(k))], h, s, fuel);
    ResumeLabel(isa, ExecBlock(isa, body, h, s, fuel), ContinueLabel(k), h, fuel);
  }

  /** How the block of a loop body ends, its continue label included. */
  function BodyOut(o: Outcome, c: Context, k: nat, tmp: Temps): TOut {
    match o
    case Done(st) => Falls(State(st, tmp))
    case Continued(st) => Falls(State(st, tmp))
    case Broke(st) => Goes(BreakLabel(k), State(st, tmp))
    case _ => Image(o, c, tmp)
  }

  lemma BodyImage(o: Outcome, c: Context, k: nat, tmp: Temps)
    ensures CatchContinue(Image(o, c.Loop(k), tmp), k) == BodyOut(o, c, k, tmp)
  {
  }

  lemma LoopNumbered(c: Context, n: Counters, k: nat)
    requires Numbered(c, n) && k == n.loops + 1
    ensures Numbered(c.Loop(k), n.(loops := k))
  {
  }

  lemma TopNumbered(c: Context, n: Counters)
    requires Numbered(c, n) && c.InLoop()
    ensures c.Top() <= n.loops
  {
    assert c.Top() in c.loops;
  }

  lemma WhileStep(isa: (nat, nat) -> bool, cond: TExpr, code: Code, h: Option<Exc>, s: State, fuel: nat)
    requires fuel > 0
    ensures Exec(isa, TWhile(cond, code), h, s, fuel) ==
            match EvalT(isa, cond, s)
            case TValue(v, s1) =>
              if !Truth(v) then Falls(s1) else
              (match ExecBlock(isa, code, h, s1, fuel)
               case Falls(s2) => Exec(isa, TWhile(cond, code), h, s2, fuel - 1)
               case Continues(s2) => Exec(isa, TWhile(cond, code), h, s2, fuel - 1)
               case Breaks(s2) => Falls(s2)
               case o => o)
            case TRaises(exc, s1) => Throws(exc, s1)
  {
  }

  lemma EndlessStep(isa: (nat, nat) -> bool, code: Code, h: Option<Exc>, s: State, fuel: nat)
    requires fuel > 0
    ensures Exec(isa, TWhile(P(Const(1)), code), h, s, fuel) ==
            match ExecBlock(isa, code, h, s, fuel)
            case Falls(s2) => Exec(isa, TWhile(P(Const(1)), code), h, s2, fuel - 1)
            case Continues(s2) => Exec(isa, TWhile(P(Const(1)), code), h, s2, fuel - 1)
            case Breaks(s2) => Falls(s2)
            case o => o
  {
    assert Look(isa, Const(1), s) == Num(1);
    WhileStep(isa, P(Const(1)), code, h, s, fuel);
  }

  lemma BlockStep(isa: (nat, nat) -> bool, t: TStmt, rest: Code, h: Option<Exc>, s: State, fuel: nat)
    ensures ExecBlock(isa, [t] + rest, h, s, fuel) == Resume(isa, Exec(isa, t, h, s, fuel), rest, h, fuel)
  {
    assert ([t] + rest)[1..] == rest;
  }

  // ----- while and repeat

  /** What a loop needs to know about its body, whose generated code is `code`. */
  ghost predicate BodyAgrees(w: World, body: Stmt, code: Code, c: Context, k: nat, h: Option<Exc>, tmp: Temps,
                             st: Store, fuel: nat) {
    var o := Run(w, body, h, st, fuel);
    Legal(o) ==>
      ExecBlock(w.isa, code + [TLabel(ContinueLabel(k))], h, State(st, tmp), fuel) == BodyOut(o, c, k, tmp)
  }

  ghost predicate BodySimulates(w: World, body: Stmt, code: Code, c: Context, k: nat, h: Option<Exc>, fuel: nat) {
    forall tmp: Temps, st: Store, f: nat :: f <= fuel ==> BodyAgrees(w, body, code, c, k, h, tmp, st, f)
  }

  lemma {:induction false} WhileSimulates(w: World, cond: Expr, body: Stmt, code: Code, c: Context, k: nat,
                                          h: Option<Exc>, st: Store, tmp: Temps, fuel: nat)
    requires BodySimulates(w, body, code, c, k, h, fuel)
    ensures Matches(Run(w, While(cond, body), h, st, fuel),
                    CatchBreak(Exec(w.isa, WhileLoop(k, cond, code), h, State(st, tmp), fuel), k), c, tmp)
    decreases fuel
  {
    if fuel > 0 {
      hide Run, Exec, ExecBlock, Resume;
      WhileStep(w.isa, Src(cond), code + [TLabel(ContinueLabel(k))], h, State(st, tmp), fuel);
      RunWhileStep(w, cond, body, h, st, fuel);
      if cond(st).Value? && Truth(cond(st).v) {
        var st1 := cond(st).st;
        assert BodyAgrees(w, body, code, c, k, h, tmp, st1, fuel);
        var o := Run(w, body, h, st1, fuel);
        if o.Done? || o.Continued? {
          WhileSimulates(w, cond, body, code, c, k, h, o.st, tmp, fuel - 1);
        }
      }
    }
  }

  lemma RepeatStep(isa: (nat, nat) -> bool, code: Code, cond: TExpr, h: Option<Exc>, s: State, fuel: nat)
    requires fuel > 0
    ensures Exec(isa, TDoWhile(code, cond), h, s, fuel) ==
            var o := ExecBlock(isa, code, h, s, fuel);
            if o.Falls? || o.Continues? then
              (match EvalT(isa, cond, o.s)
               case TValue(v, s2) =>
                 if Truth(v) then Exec(isa, TDoWhile(code, cond), h, s2, fuel - 1) else Falls(s2)
               case TRaises(exc, s2) => Throws(exc, s2))
            else if o.Breaks? then Falls(o.s)
            else o
  {
  }

  lemma RepeatWithoutFuel(w: World, stmts: seq<Stmt>, cond: Expr, code: Code, c: Context, k: nat, h: Option<Exc>,
                          st: Store, tmp: Temps)
    ensures Matches(Run(w, Repeat(stmts, cond), h, st, 0),
                    CatchBreak(Exec(w.isa, RepeatLoop(k, code, cond), h, State(st, tmp), 0), k), c, tmp)
  {
  }

  /** One round of `repeat`: both sides go on with the same store, or both are finished alike. */
  lemma RepeatFuelledStep(w: World, stmts: seq<Stmt>, cond: Expr, code: Code, c: Context, k: nat, h: Option<Exc>,
                          st: Store, tmp: Temps, fuel: nat)
    requires fuel > 0 && BodySimulates(w, Compound(stmts), code, c, k, h, fuel)
    ensures var o := RunSeq(w, stmts, h, st, fuel);
            var run := Run(w, Repeat(stmts, cond), h, st, fuel);
            var exec := Exec(w.isa, RepeatLoop(k, code, cond), h, State(st, tmp), fuel);
            if (o.Done? || o.Continued?) && cond(o.st).Value? && !Truth(cond(o.st).v) then
              && run == Run(w, Repeat(stmts, cond), h, cond(o.st).st, fuel - 1)
              && exec == Exec(w.isa, RepeatLoop(k, code, cond), h, State(cond(o.st).st, tmp), fuel - 1)
            else Matches(run, CatchBreak(exec, k), c, tmp)
  {
    RepeatStep(w.isa, code + [TLabel(ContinueLabel(k))], NotSrc(cond), h, State(st, tmp), fuel);
    hide Exec, ExecBlock, Resume, RunSeq;
    assert BodyAgrees(w, Compound(stmts), code, c, k, h, tmp, st, fuel);
    var o := RunSeq(w, stmts, h, st, fuel);
    assert Run(w, Compound(stmts), h, st, fuel) == o;
  }

  lemma {:induction false} RepeatSimulates(w: World, stmts: seq<Stmt>, cond: Expr, code: Code, c: Context, k: nat,
                                           h: Option<Exc>, st: Store, tmp: Temps, fuel: nat)
    requires BodySimulates(w, Compound(stmts), code, c, k, h, fuel)
    ensures Matches(Run(w, Repeat(stmts, cond), h, st, fuel),
                    CatchBreak(Exec(w.isa, RepeatLoop(k, code, cond), h, State(st, tmp), fuel), k), c, tmp)
    decreases fuel
  {
    hide Exec, RunSeq, ExecBlock, Resume, Matches, BodySimulates, CatchBreak, RepeatLoop;
    if fuel == 0 {
      RepeatWithoutFuel(w, stmts, cond, code, c, k, h, st, tmp);
    } else {
      RepeatFuelledStep(w, stmts, cond, code, c, k, h, st, tmp, fuel);
      var o := RunSeq(w, stmts, h, st, fuel);
      hide Run;
      if (o.Done? || o.Continued?) && cond(o.st).Value? && !Truth(cond(o.st).v) {
        LessFuel(w, Compound(stmts), code, c, k, h, fuel);
        RepeatSimulates(w, stmts, cond, code, c, k, h, cond(o.st).st, tmp, fuel - 1);
      }
    }
  }

  lemma ExecIf(isa: (nat, nat) -> bool, p: Pure, thn: Code, els: Code, h: Option<Exc>, s: State, fuel: nat)
    ensures Exec(isa, TIf(P(p), thn, els), h, s, fuel) ==
            ExecBlock(isa, if Truth(Look(isa, p, s)) then thn else els, h, s, fuel)
  {
  }

  /** if (p) break; step; */
  lemma TestThenStep(isa: (nat, nat) -> bool, p: Pure, step: TStmt, h: Option<Exc>, s: State, fuel: nat)
    ensures ExecBlock(isa, [TIf(P(p), [TBreak], []), step], h, s, fuel) ==
            if Truth(Look(isa, p, s)) then Breaks(s) else Exec(isa, step, h, s, fuel)
  {
    hide Look;
    var test := TIf(P(p), [TBreak], []);
    assert [test, step] == [test] + [step];
    BlockStep(isa, test, [step], h, s, fuel);
    ExecIf(isa, p, [TBreak], [], h, s, fuel);
    ExecOne(isa, TBreak, h, s, fuel);
    ExecOne(isa, step, h, s, fuel);
    assert ExecBlock(isa, [], h, s, fuel) == Falls(s);
  }

  // ----- for loops

  /** Between the bounds the wrapping step is the mathematical successor or predecessor. */
  lemma StepIsExact(car: Carrier, cur: int, last: int, downto: bool)
    requires InRange(car, cur) && InRange(car, last)
    requires if downto then last < cur else cur < last
    ensures InRange(car, Next(cur, downto))
    ensures Wrap(car, Next(Wrap(car, cur), downto)) == Next(cur, downto)
  {
  }

  /** The end of a `for` iteration: leave the loop at the last value, step otherwise. */
  lemma ForTailRuns(isa: (nat, nat) -> bool, x: string, car: Carrier, downto: bool, h: Option<Exc>, st: Store,
                tmp: Temps, fuel: nat)
    requires ToBound in tmp
    ensures ExecBlock(isa, ForTail(x, car, downto), h, State(st, tmp), fuel) ==
            if st.Get(x) == AsNum(tmp[ToBound]) then Breaks(State(st, tmp))
            else Falls(State(st.Set(x, Wrap(car, Next(Wrap(car, st.Get(x)), downto))), tmp))
  {
    hide ExecBlock, Resume;
    var step := TSet(x, P(Step(car, downto, VarRef(x))));
    var s := State(st, tmp);
    TestThenStep(isa, Eq(VarRef(x), Ref(ToBound)), step, h, s, fuel);
    assert Look(isa, VarRef(x), s) == Num(st.Get(x)) && Look(isa, Ref(ToBound), s) == tmp[ToBound];
  }

  /** One iteration of a `for`, whatever its final value: the step is taken in the carrier. */
  lemma ForLoopStep(w: World, x: string, car: Carrier, cur: int, last: int, downto: bool, body: Stmt, code: Code,
                    c: Context, k: nat, h: Option<Exc>, st: Store, tmp: Temps, fuel: nat)
    requires fuel > 0 && BodySimulates(w, body, code, c, k, h, fuel)
    requires ToBound in tmp && AsNum(tmp[ToBound]) == last
    requires InRange(car, cur)
    ensures var loop := ForLoop(k, x, car, downto, code);
            var o := Run(w, body, h, st.Set(x, cur), fuel);
            var exec := Exec(w.isa, loop, h, State(st.Set(x, cur), tmp), fuel);
            Legal(o) ==>
              if o.Done? || o.Continued? then
                o.st.Get(x) == cur ==>
                  exec == (if cur == last then Falls(State(o.st, tmp))
                           else Exec(w.isa, loop, h, State(o.st.Set(x, Wrap(car, Next(cur, downto))), tmp), fuel - 1))
              else exec == BodyOut(o, c, k, tmp)
  {
    hide Run, Exec, ExecBlock, Resume;
    var st0 := st.Set(x, cur);
    var inside, tail := code + [TLabel(ContinueLabel(k))], ForTail(x, car, downto);
    EndlessStep(w.isa, inside + tail, h, State(st0, tmp), fuel);
    ExecAppend(w.isa, inside, tail, h, State(st0, tmp), fuel);
    assert BodyAgrees(w, body, code, c, k, h, tmp, st0, fuel);
    var o := Run(w, body, h, st0, fuel);
    if Legal(o) {
      ForIteration(w, x, car, cur, last, downto, o, c, k, h, tmp, fuel);
    }
  }

  lemma ForFuelledStep(w: World, x: string, car: Carrier, cur: int, last: int, downto: bool, body: Stmt, code: Code,
                       c: Context, k: nat, h: Option<Exc>, st: Store, tmp: Temps, fuel: nat)
    requires fuel > 0 && BodySimulates(w, body, code, c, k, h, fuel)
    requires ToBound in tmp && AsNum(tmp[ToBound]) == last
    requires InRange(car, cur) && InRange(car, last) && if downto then last <= cur else cur <= last
    ensures var loop := ForLoop(k, x, car, downto, code);
            var o := Run(w, body, h, st.Set(x, cur), fuel);
            var run := RunFor(w, x, cur, last, downto, body, h, st, fuel);
            var exec := Exec(w.isa, loop, h, State(st.Set(x, cur), tmp), fuel);
            if (o.Done? || o.Continued?) && o.st.Get(x) == cur != last then
              && run == RunFor(w, x, Next(cur, downto), last, downto, body, h, o.st, fuel - 1)
              && exec == Exec(w.isa, loop, h, State(o.st.Set(x, Next(cur, downto)), tmp), fuel - 1)
            else Matches(run, CatchBreak(exec, k), c, tmp)
  {
    hide Run, RunFor, Exec, ExecBlock, Resume;
    ForLoopStep(w, x, car, cur, last, downto, body, code, c, k, h, st, tmp, fuel);
    if cur != last { StepIsExact(car, cur, last, downto); }
    RunForStep(w, x, cur, last, downto, body, h, st, fuel);
  }

  lemma LessFuel(w: World, body: Stmt, code: Code, c: Context, k: nat, h: Option<Exc>, fuel: nat)
    requires BodySimulates(w, body, code, c, k, h, fuel)
    ensures fuel > 0 ==> BodySimulates(w, body, code, c, k, h, fuel - 1)
  {
    hide BodyAgrees;
  }

  lemma ForWithoutFuel(w: World, x: string, car: Carrier, cur: int, last: int, downto: bool, body: Stmt, code: Code,
                       c: Context, k: nat, h: Option<Exc>, st: Store, tmp: Temps)
    ensures Matches(RunFor(w, x, cur, last, downto, body, h, st, 0),
                    CatchBreak(Exec(w.isa, ForLoop(k, x, car, downto, code), h, State(st.Set(x, cur), tmp), 0), k),
                    c, tmp)
  {
  }

  lemma {:induction false} ForSimulates(w: World, x: string, car: Carrier, cur: int, last: int, downto: bool,
                                        body: Stmt, code: Code, c: Context, k: nat, h: Option<Exc>, st: Store,
                                        tmp: Temps, fuel: nat)
    requires BodySimulates(w, body, code, c, k, h, fuel)
    requires ToBound in tmp && AsNum(tmp[ToBound]) == last
    requires InRange(car, cur) && InRange(car, last) && if downto then last <= cur else cur <= last
    ensures Matches(RunFor(w, x, cur, last, downto, body, h, st, fuel),
                    CatchBreak(Exec(w.isa, ForLoop(k, x, car, downto, code), h, State(st.Set(x, cur), tmp), fuel), k),
                    c, tmp)
    decreases fuel
  {
    hide RunFor, Exec, Matches, BodySimulates, CatchBreak, ForLoop;
    if fuel == 0 {
      ForWithoutFuel(w, x, car, cur, last, downto, body, code, c, k, h, st, tmp);
    } else {
      hide Run, InRange, AsNum;
      ForFuelledStep(w, x, car, cur, last, downto, body, code, c, k, h, st, tmp, fuel);
      var o := Run(w, body, h, st.Set(x, cur), fuel);
      if (o.Done? || o.Continued?) && o.st.Get(x) == cur != last {
        StepIsExact(car, cur, last, downto);
        LessFuel(w, body, code, c, k, h, fuel);
        ForSimulates(w, x, car, Next(cur, downto), last, downto, body, code, c, k, h, o.st, tmp, fuel - 1);
      }
    }
  }

  lemma ForIteration(w: World, x: string, car: Carrier, cur: int, last: int, downto: bool, o: Outcome, c: Context,
                     k: nat, h: Option<Exc>, tmp: Temps, fuel: nat)
    requires Legal(o)
    requires ToBound in tmp && AsNum(tmp[ToBound]) == last
    ensures Resume(w.isa, BodyOut(o, c, k, tmp), ForTail(x, car, downto), h, fuel) ==
            if o.Done? || o.Continued? then
              (if o.st.Get(x) == last then Breaks(State(o.st, tmp))
               else Falls(State(o.st.Set(x, Wrap(car, Next(Wrap(car, o.st.Get(x)), downto))), tmp)))
            else BodyOut(o, c, k, tmp)
  {
    if o.Done? || o.Continued? {
      ForTailRuns(w.isa, x, car, downto, h, o.st, tmp, fuel);
    } else if o.Broke? {
      var tail := ForTail(x, car, downto);
      NotAt2(tail[0], tail[1], BreakLabel(k));
      GotoLost(w.isa, BreakLabel(k), State(o.st, tmp), tail, h, fuel);
    }
  }

  // ----- temporaries and blocks

  /** Leaving the block of a temporary gives back the temporaries from outside the block. */
  lemma ImageDrop(o: Outcome, c: Context, t: Temp, v: Val, tmp: Temps)
    ensures Image(o, c, tmp[t := v]).Drop(t, tmp) == Image(o, c, tmp)
  {
    if t in tmp {
      assert tmp[t := v][t := tmp[t]] == tmp;
    } else {
      assert tmp[t := v] - {t} == tmp;
    }
  }

  lemma CatchBreakDrop(o: TOut, k: nat, t: Temp, tmp: Temps)
    ensures CatchBreak(o.Drop(t, tmp), k) == CatchBreak(o, k).Drop(t, tmp)
  {
  }

  lemma LetStep(isa: (nat, nat) -> bool, t: Temp, e: TExpr, u: TStmt, h: Option<Exc>, s: State, fuel: nat)
    ensures Exec(isa, TLet(t, e, [u]), h, s, fuel) ==
            match EvalT(isa, e, s)
            case TValue(v, s1) => Exec(isa, u, h, s1.(tmp := s1.tmp[t := v]), fuel).Drop(t, s1.tmp)
            case TRaises(exc, s1) => Throws(exc, s1)
  {
    match EvalT(isa, e, s)
    case TValue(v, s1) => ExecOne(isa, u, h, s1.(tmp := s1.tmp[t := v]), fuel);
    case TRaises(_, _) =>
  }

  /** A block that declares a temporary, run as the only statement of a block. */
  lemma LetRuns(isa: (nat, nat) -> bool, t: Temp, e: TExpr, code: Code, h: Option<Exc>, s: State, fuel: nat)
    ensures ExecBlock(isa, [TLet(t, e, code)], h, s, fuel) ==
            match EvalT(isa, e, s)
            case TValue(v, s1) => ExecBlock(isa, code, h, s1.(tmp := s1.tmp[t := v]), fuel).Drop(t, s1.tmp)
            case TRaises(exc, s1) => Throws(exc, s1)
  {
    ExecOne(isa, TLet(t, e, code), h, s, fuel);
  }

  lemma TryRuns(isa: (nat, nat) -> bool, code: Code, obj: Option<Catch>, all: CatchAll, h: Option<Exc>, s: State,
                fuel: nat)
    ensures ExecBlock(isa, [TTry(code, obj, all)], h, s, fuel) ==
            match ExecBlock(isa, code, h, s, fuel)
            case Throws(exc, s1) =>
              if obj.Some? && exc.asException then
                ExecBlock(isa, obj.value.code, Some(exc), s1.(tmp := s1.tmp[obj.value.t := Obj(exc)]), fuel)
                  .Drop(obj.value.t, s1.tmp)
              else if all.CatchAll? then ExecBlock(isa, all.code, Some(exc), s1, fuel)
              else Throws(exc, s1)
            case o => o
  {
    ExecOne(isa, TTry(code, obj, all), h, s, fuel);
  }

  lemma {:induction false} ForBlockSimulates(w: World, s: Stmt, code: Code, c: Context, k: nat, h: Option<Exc>,
                                             st: Store, tmp: Temps, fuel: nat)
    requires s.For? && BodySimulates(w, s.body, code, c, k, h, fuel)
    ensures Matches(Run(w, s, h, st, fuel),
                    CatchBreak(Exec(w.isa, ForBlock(k, s.x, s.car, s.from, s.to, s.downto, code), h,
                                    State(st, tmp), fuel), k), c, tmp)
  {
    var isa := w.isa;
    var outer := ForBlock(k, s.x, s.car, s.from, s.to, s.downto, code);
    var inner := outer.code[0];
    LetStep(isa, FromBound, Src(s.from), inner, h, State(st, tmp), fuel);
    if s.from(st).Value? {
      var a, st1 := s.from(st).v, s.from(st).st;
      var tmp1 := tmp[FromBound := a];
      LetStep(isa, ToBound, Src(s.to), inner.code[0], h, State(st1, tmp1), fuel);
      if s.to(st1).Value? {
        var b, st2 := s.to(st1).v, s.to(st1).st;
        var tmp2 := tmp1[ToBound := b];
        GuardedFor(w, s, code, c, k, h, st2, tmp2, fuel);
        var o := Run(w, s, h, st, fuel);
        var x := Exec(isa, inner.code[0], h, State(st2, tmp2), fuel);
        CatchBreakDrop(x, k, ToBound, tmp1);
        CatchBreakDrop(x.Drop(ToBound, tmp1), k, FromBound, tmp);
        ImageDrop(o, c, ToBound, b, tmp1);
        ImageDrop(o, c, FromBound, a, tmp);
      } else {
        ImageDrop(Raised(s.to(st1).e, s.to(st1).st), c, FromBound, a, tmp);
      }
    }
  }

  /** What a `for` does once both bounds are known. */
  function AfterBounds(w: World, s: Stmt, first: int, last: int, h: Option<Exc>, st: Store, fuel: nat): Outcome
    requires s.For?
  {
    if (if s.downto then first < last else last < first) then Done(st)
    else if !InRange(s.car, first) || !InRange(s.car, last) then Undefined
    else RunFor(w, s.x, first, last, s.downto, s.body, h, st, fuel)
  }

  /** The guarded part of a lowered `for`: the loop starts at the first value as the carrier holds it. */
  lemma GuardedForRuns(isa: (nat, nat) -> bool, s: Stmt, code: Code, k: nat, h: Option<Exc>, s0: State, fuel: nat)
    requires s.For? && FromBound in s0.tmp && ToBound in s0.tmp
    ensures var guarded := ForBlock(k, s.x, s.car, s.from, s.to, s.downto, code).code[0].code[0];
            var first, last := AsNum(s0.tmp[FromBound]), AsNum(s0.tmp[ToBound]);
            Exec(isa, guarded, h, s0, fuel) ==
            if (if s.downto then first < last else last < first) then Falls(s0)
            else Exec(isa, ForLoop(k, s.x, s.car, s.downto, code), h,
                      s0.(st := s0.st.Set(s.x, Wrap(s.car, first))), fuel)
  {
    hide ForLoop;
    var guarded := ForBlock(k, s.x, s.car, s.from, s.to, s.downto, code).code[0].code[0];
    var loop := ForLoop(k, s.x, s.car, s.downto, code);
    var first, last := AsNum(s0.tmp[FromBound]), AsNum(s0.tmp[ToBound]);
    assert Look(isa, Ref(FromBound), s0) == s0.tmp[FromBound] && Look(isa, Ref(ToBound), s0) == s0.tmp[ToBound];
    ExecIf(isa, guarded.cond.p, guarded.thn, [], h, s0, fuel);
    if if s.downto then first < last else last < first {
      assert ExecBlock(isa, [], h, s0, fuel) == Falls(s0);
    } else {
      assert guarded.thn[1..] == [loop];
      var s1 := s0.(st := s0.st.Set(s.x, Wrap(s.car, first)));
      assert Exec(isa, guarded.thn[0], h, s0, fuel) == Falls(s1);
      ExecOne(isa, loop, h, s1, fuel);
    }
  }

  /** A lowered `for` with both bounds known, up to the temporaries its blocks drop again. */
  lemma ForBlockRuns(isa: (nat, nat) -> bool, s: Stmt, code: Code, k: nat, h: Option<Exc>, st: Store, tmp: Temps,
                     fuel: nat)
    requires s.For? && s.from(st).Value? && s.to(s.from(st).st).Value?
    ensures var a, b := s.from(st).v, s.to(s.from(st).st).v;
            var s2 := State(s.to(s.from(st).st).st, tmp[FromBound := a][ToBound := b]);
            var guarded := ForBlock(k, s.x, s.car, s.from, s.to, s.downto, code).code[0].code[0];
            Exec(isa, ForBlock(k, s.x, s.car, s.from, s.to, s.downto, code), h, State(st, tmp), fuel) ==
            Exec(isa, guarded, h, s2, fuel).Drop(ToBound, tmp[FromBound := a]).Drop(FromBound, tmp)
  {
    hide Exec;
    var outer := ForBlock(k, s.x, s.car, s.from, s.to, s.downto, code);
    var inner := outer.code[0];
    LetStep(isa, FromBound, Src(s.from), inner, h, State(st, tmp), fuel);
    LetStep(isa, ToBound, Src(s.to), inner.code[0], h, State(s.from(st).st, tmp[FromBound := s.from(st).v]), fuel);
  }

  lemma {:induction false} GuardedFor(w: World, s: Stmt, code: Code, c: Context, k: nat, h: Option<Exc>,
                                      st: Store, tmp: Temps, fuel: nat)
    requires s.For? && BodySimulates(w, s.body, code, c, k, h, fuel)
    requires FromBound in tmp && ToBound in tmp
    ensures var guarded := ForBlock(k, s.x, s.car, s.from, s.to, s.downto, code).code[0].code[0];
            Matches(AfterBounds(w, s, AsNum(tmp[FromBound]), AsNum(tmp[ToBound]), h, st, fuel),
                    CatchBreak(Exec(w.isa, guarded, h, State(st, tmp), fuel), k), c, tmp)
  {
    hide Exec, Run, RunFor, ForLoop;
    GuardedForRuns(w.isa, s, code, k, h, State(st, tmp), fuel);
    var first, last := AsNum(tmp[FromBound]), AsNum(tmp[ToBound]);
    if !(if s.downto then first < last else last < first) && InRange(s.car, first) && InRange(s.car, last) {
      ForSimulates(w, s.x, s.car, first, last, s.downto, s.body, code, c, k, h, st, tmp, fuel);
    }
  }

  // ----- for over the members of a set

  /** The end of an iteration over a set: leave the loop at the last item, step otherwise. */
  lemma SetTailRuns(isa: (nat, nat) -> bool, k: nat, car: Carrier, hi: int, h: Option<Exc>, st: Store, tmp: Temps,
                fuel: nat)
    requires Item(k) in tmp && InRange(car, hi)
    ensures var item := AsNum(tmp[Item(k)]);
            ExecBlock(isa, SetTail(k, car, hi), h, State(st, tmp), fuel) ==
            if item == hi then Breaks(State(st, tmp))
            else Falls(State(st, tmp[Item(k) := Num(Wrap(car, Wrap(car, item) + 1))]))
  {
    hide ExecBlock, Resume;
    var step := TSetTemp(Item(k), Step(car, false, Ref(Item(k))));
    var s := State(st, tmp);
    TestThenStep(isa, Eq(Ref(Item(k)), Conv(car, Const(hi))), step, h, s, fuel);
    assert Look(isa, Ref(Item(k)), s) == tmp[Item(k)] && Look(isa, Const(hi), s) == Num(hi);
    assert Look(isa, Conv(car, Const(hi)), s) == Num(hi);
  }

  /** The first statement of an iteration over a set: the body, if the item is a member. */
  lemma SetMember(w: World, x: string, members: set<int>, cur: int, body: Stmt, code: Code, c: Context, k: nat,
                  h: Option<Exc>, st: Store, tmp: Temps, fuel: nat)
    requires BodySimulates(w, body, code, c, k, h, fuel)
    requires Item(k) in tmp && tmp[Item(k)] == Num(cur)
    requires SetCopy(k) in tmp && AsSet(tmp[SetCopy(k)]) == members
    ensures var o := if cur in members then Run(w, body, h, st.Set(x, cur), fuel) else Done(st);
            Legal(o) ==> Exec(w.isa, SetVisit(k, x, code), h, State(st, tmp), fuel) == BodyOut(o, c, k, tmp)
  {
    hide Run;
    var isa, s := w.isa, State(st, tmp);
    var assign := TSet(x, P(Ref(Item(k))));
    var inside := code + [TLabel(ContinueLabel(k))];
    assert Look(isa, Ref(Item(k)), s) == Num(cur) && Look(isa, Ref(SetCopy(k)), s) == tmp[SetCopy(k)];
    ExecIf(isa, Contains(Ref(SetCopy(k)), Ref(Item(k))), [assign] + inside, [], h, s, fuel);
    if cur in members {
      assert BodyAgrees(w, body, code, c, k, h, tmp, st.Set(x, cur), fuel);
      assert ([assign] + inside)[1..] == inside;
      assert Exec(isa, assign, h, s, fuel) == Falls(State(st.Set(x, cur), tmp));
    } else {
      assert ExecBlock(isa, [], h, s, fuel) == Falls(s);
    }
  }

  /** One iteration over a set. */
  lemma SetLoopStep(w: World, x: string, car: Carrier, members: set<int>, cur: int, hi: int, body: Stmt, code: Code,
                    c: Context, k: nat, h: Option<Exc>, st: Store, outer: Temps, fuel: nat)
    requires fuel > 0 && BodySimulates(w, body, code, c, k, h, fuel)
    requires SetCopy(k) in outer && AsSet(outer[SetCopy(k)]) == members
    requires InRange(car, cur) && InRange(car, hi) && cur <= hi
    ensures var loop, tmp := SetLoop(k, x, car, hi, code), outer[Item(k) := Num(cur)];
            var o := if cur in members then Run(w, body, h, st.Set(x, cur), fuel) else Done(st);
            Legal(o) ==>
              Exec(w.isa, loop, h, State(st, tmp), fuel) ==
              if o.Done? || o.Continued? then
                (if cur == hi then Falls(State(o.st, tmp))
                 else Exec(w.isa, loop, h, State(o.st, outer[Item(k) := Num(cur + 1)]), fuel - 1))
              else BodyOut(o, c, k, tmp)
  {
    hide Run, Exec, ExecBlock, Resume, BodySimulates, AsSet;
    var tmp := outer[Item(k) := Num(cur)];
    assert tmp[SetCopy(k)] == outer[SetCopy(k)] && tmp[Item(k)] == Num(cur);
    var visit, tail := SetVisit(k, x, code), SetTail(k, car, hi);
    EndlessStep(w.isa, [visit] + tail, h, State(st, tmp), fuel);
    BlockStep(w.isa, visit, tail, h, State(st, tmp), fuel);
    SetMember(w, x, members, cur, body, code, c, k, h, st, tmp, fuel);
    var o := if cur in members then Run(w, body, h, st.Set(x, cur), fuel) else Done(st);
    if Legal(o) {
      SetIteration(w, k, car, cur, hi, o, c, h, tmp, fuel);
      if cur != hi {
        StepIsExact(car, cur, hi, false);
        assert tmp[Item(k) := Num(cur + 1)] == outer[Item(k) := Num(cur + 1)];
      }
    }
  }

  lemma Between(car: Carrier, cur: int, hi: int)
    requires InRange(car, cur) && InRange(car, hi) && cur < hi
    ensures InRange(car, cur + 1)
  {
  }

  lemma SetWithoutFuel(w: World, x: string, car: Carrier, members: set<int>, cur: int, hi: int, body: Stmt, code: Code,
                       c: Context, k: nat, h: Option<Exc>, st: Store, outer: Temps)
    ensures Matches(RunSet(w, x, members, cur, hi, body, h, st, 0),
                    CatchBreak(Exec(w.isa, SetLoop(k, x, car, hi, code), h,
                                    State(st, outer[Item(k) := Num(cur)]), 0).Drop(Item(k), outer), k), c, outer)
  {
  }

  /** The walk from `cur` to `hi`. The item's own temporary is dropped with the block that declares it. */
  lemma {:induction false} SetSimulates(w: World, x: string, car: Carrier, members: set<int>, cur: int, hi: int,
                                        body: Stmt, code: Code, c: Context, k: nat, h: Option<Exc>, st: Store,
                                        outer: Temps, fuel: nat)
    requires BodySimulates(w, body, code, c, k, h, fuel)
    requires SetCopy(k) in outer && AsSet(outer[SetCopy(k)]) == members
    requires InRange(car, cur) && InRange(car, hi) && cur <= hi
    ensures Matches(RunSet(w, x, members, cur, hi, body, h, st, fuel),
                    CatchBreak(Exec(w.isa, SetLoop(k, x, car, hi, code), h,
                                    State(st, outer[Item(k) := Num(cur)]), fuel).Drop(Item(k), outer), k), c, outer)
    decreases fuel
  {
    hide RunSet, Exec, Matches, BodySimulates, CatchBreak, SetLoop;
    if fuel == 0 {
      SetWithoutFuel(w, x, car, members, cur, hi, body, code, c, k, h, st, outer);
    } else {
      hide Run, InRange, AsSet;
      SetFuelledStep(w, x, car, members, cur, hi, body, code, c, k, h, st, outer, fuel);
      var o := if cur in members then Run(w, body, h, st.Set(x, cur), fuel) else Done(st);
      if (o.Done? || o.Continued?) && cur != hi {
        Between(car, cur, hi);
        LessFuel(w, body, code, c, k, h, fuel);
        SetSimulates(w, x, car, members, cur + 1, hi, body, code, c, k, h, o.st, outer, fuel - 1);
      }
    }
  }

  lemma SetFuelledStep(w: World, x: string, car: Carrier, members: set<int>, cur: int, hi: int, body: Stmt,
                       code: Code, c: Context, k: nat, h: Option<Exc>, st: Store, outer: Temps, fuel: nat)
    requires fuel > 0 && BodySimulates(w, body, code, c, k, h, fuel)
    requires SetCopy(k) in outer && AsSet(outer[SetCopy(k)]) == members
    requires InRange(car, cur) && InRange(car, hi) && cur <= hi
    ensures var o := if cur in members then Run(w, body, h, st.Set(x, cur), fuel) else Done(st);
            var run := RunSet(w, x, members, cur, hi, body, h, st, fuel);
            var loop := SetLoop(k, x, car, hi, code);
            var exec := Exec(w.isa, loop, h, State(st, outer[Item(k) := Num(cur)]), fuel);
            if (o.Done? || o.Continued?) && cur != hi then
              && run == RunSet(w, x, members, cur + 1, hi, body, h, o.st, fuel - 1)
              && exec == Exec(w.isa, loop, h, State(o.st, outer[Item(k) := Num(cur + 1)]), fuel - 1)
            else Matches(run, CatchBreak(exec.Drop(Item(k), outer), k), c, outer)
  {
    hide Run, RunSet, Exec, ExecBlock, Resume;
    SetLoopStep(w, x, car, members, cur, hi, body, code, c, k, h, st, outer, fuel);
    RunSetStep(w, x, members, cur, hi, body, h, st, fuel);
    var o := if cur in members then Run(w, body, h, st.Set(x, cur), fuel) else Done(st);
    if Legal(o) {
      ImageDrop(if o.Continued? || o.Broke? then Done(o.st) else o, c, Item(k), Num(cur), outer);
      CatchBreakDrop(BodyOut(o, c, k, outer[Item(k) := Num(cur)]), k, Item(k), outer);
    }
  }

  lemma SetIteration(w: World, k: nat, car: Carrier, cur: int, hi: int, o: Outcome, c: Context,
                     h: Option<Exc>, tmp: Temps, fuel: nat)
    requires Legal(o) && InRange(car, hi) && InRange(car, cur)
    requires Item(k) in tmp && tmp[Item(k)] == Num(cur)
    ensures Resume(w.isa, BodyOut(o, c, k, tmp), SetTail(k, car, hi), h, fuel) ==
            if o.Done? || o.Continued? then
              (if cur == hi then Breaks(State(o.st, tmp))
               else Falls(State(o.st, tmp[Item(k) := Num(Wrap(car, cur + 1))])))
            else BodyOut(o, c, k, tmp)
  {
    if o.Done? || o.Continued? {
      SetTailRuns(w.isa, k, car, hi, h, o.st, tmp, fuel);
    } else if o.Broke? {
      var tail := SetTail(k, car, hi);
      NotAt2(tail[0], tail[1], BreakLabel(k));
      GotoLost(w.isa, BreakLabel(k), State(o.st, tmp), tail, h, fuel);
    }
  }

  lemma {:induction false} SetBlockSimulates(w: World, s: Stmt, code: Code, c: Context, k: nat, h: Option<Exc>,
                                             st: Store, tmp: Temps, fuel: nat)
    requires s.ForInSet? && BodySimulates(w, s.body, code, c, k, h, fuel)
    ensures Matches(Run(w, s, h, st, fuel),
                    CatchBreak(Exec(w.isa, SetBlock(k, s.x, s.car, s.lo, s.hi, s.e, code), h, State(st, tmp), fuel), k),
                    c, tmp)
  {
    var isa := w.isa;
    var outer := SetBlock(k, s.x, s.car, s.lo, s.hi, s.e, code);
    var inner := outer.code[0];
    LetStep(isa, SetCopy(k), Src(s.e), inner, h, State(st, tmp), fuel);
    if s.lo <= s.hi && InRange(s.car, s.lo) && InRange(s.car, s.hi) && s.e(st).Value? {
      var v, st1 := s.e(st).v, s.e(st).st;
      var tmp1 := tmp[SetCopy(k) := v];
      var loop := SetLoop(k, s.x, s.car, s.hi, code);
      assert Look(isa, Const(s.lo), State(st1, tmp1)) == Num(s.lo);
      LetStep(isa, Item(k), P(Conv(s.car, Const(s.lo))), loop, h, State(st1, tmp1), fuel);
      SetSimulates(w, s.x, s.car, AsSet(v), s.lo, s.hi, s.body, code, c, k, h, st1, tmp1, fuel);
      var x := Exec(isa, loop, h, State(st1, tmp1[Item(k) := Num(s.lo)]), fuel);
      CatchBreakDrop(x.Drop(Item(k), tmp1), k, SetCopy(k), tmp);
      ImageDrop(Run(w, s, h, st, fuel), c, SetCopy(k), v, tmp);
    }
  }

  lemma ExitRuns(isa: (nat, nat) -> bool, value: Option<Expr>, c: Context, n: Counters, h: Option<Exc>, st: Store,
                 tmp: Temps, fuel: nat)
    ensures ExecBlock(isa, Lower(Exit(value), c, n).code, h, State(st, tmp), fuel) ==
            if value.None? then Returns(st.result, State(st, tmp)) else
            match value.value(st)
            case Value(v, st1) => Returns(AsNum(v), State(st1.(result := AsNum(v)), tmp))
            case Raises(e, st1) => Throws(e, State(st1, tmp))
  {
    ExitCode(value, c, n);
    hide Lower;
    if value.None? {
      ExecOne(isa, TReturn, h, State(st, tmp), fuel);
    } else {
      var e := value.value;
      BlockStep(isa, TSetResult(Src(e)), [TReturn], h, State(st, tmp), fuel);
      if e(st).Value? {
        ExecOne(isa, TReturn, h, State(e(st).st.(result := AsNum(e(st).v)), tmp), fuel);
      }
    }
  }

  lemma ExitCode(value: Option<Expr>, c: Context, n: Counters)
    ensures Lower(Exit(value), c, n).code ==
            if value.None? then [TReturn] else [TSetResult(Src(value.value))] + [TReturn]
  {
    hide Lower;
    LowerOfLeaf(Exit(value), c, n);
    assert value.None? ==> [] + [TReturn] == [TReturn];
  }

  /** Statements that contain no statement. */
  lemma SimpleRuns(w: World, s: Stmt, c: Context, n: Counters, h: Option<Exc>, st: Store, tmp: Temps, fuel: nat)
    requires Leaf(s)
    ensures Matches(Run(w, s, h, st, fuel), ExecBlock(w.isa, Lower(s, c, n).code, h, State(st, tmp), fuel), c, tmp)
  {
    hide Run, Lower, ExecBlock, Resume;
    RunOfLeaf(w, s, h, st, fuel);
    LowerOfLeaf(s, c, n);
    if s.Exit? {
      hide Exec;
      ExitRuns(w.isa, s.value, c, n, h, st, tmp, fuel);
    } else {
      ExecOne(w.isa, LowerLeaf(s, c, n).code[0], h, State(st, tmp), fuel);
    }
  }

  lemma GuardStep(isa: (nat, nat) -> bool, fin: Code, code: Code, h: Option<Exc>, s: State, fuel: nat)
    ensures ExecBlock(isa, [TGuard(fin, code)], h, s, fuel) ==
            var o := ExecBlock(isa, code, h, s, fuel);
            if !o.HasState() then o else AfterGuard(o, ExecBlock(isa, fin, h, o.s, fuel))
  {
    ExecOne(isa, TGuard(fin, code), h, s, fuel);
  }

  /** In a strict world the guard ends a try statement the way its finally part does. */
  lemma GuardImage(w: World, o: Outcome, f: Outcome, c: Context, tmp: Temps)
    requires w.strict && o.Ended() && Legal(AfterFinally(w, o, f))
    ensures AfterGuard(Image(o, c, tmp), Image(f, c, tmp)) == Image(AfterFinally(w, o, f), c, tmp)
  {
  }

  lemma ImageState(o: Outcome, c: Context, tmp: Temps)
    requires o.Ended()
    ensures Image(o, c, tmp).HasState() && Image(o, c, tmp).s == State(o.st, tmp)
  {
  }

  lemma ImageTimeout(c: Context, tmp: Temps)
    ensures Image(Timeout, c, tmp) == TTimeout
  {
  }
}
