/**
  Lowering preserves meaning: running the generated code ends the way the Pascal statement ends, for
  every statement, store, fuel and nesting of loops and handlers.
 */
module Preservation {
  import opened Wrappers
  import opened Pascal
  import opened Cxx
  import opened Lowering
  import opened Simulation
  import opened Branches

  lemma {:induction false} Preserve(w: World, s: Stmt, c: Context, n: Counters, h: Option<Exc>, st: Store,
                                    tmp: Temps, fuel: nat)
    requires w.strict && Numbered(c, n)
    ensures Matches(Run(w, s, h, st, fuel), ExecBlock(w.isa, Lower(s, c, n).code, h, State(st, tmp), fuel), c, tmp)
    decreases fuel, s, 6
  {
    match s
    case Compound(_) => PreserveCompound(w, s, c, n, h, st, tmp, fuel);
    case If(_, _, _) => PreserveIf(w, s, c, n, h, st, tmp, fuel);
    case While(_, _) => PreserveWhile(w, s, c, n, h, st, tmp, fuel);
    case Repeat(_, _) => PreserveRepeat(w, s, c, n, h, st, tmp, fuel);
    case For(_, _, _, _, _, _) => PreserveFor(w, s, c, n, h, st, tmp, fuel);
    case ForInSet(_, _, _, _, _, _) => PreserveForInSet(w, s, c, n, h, st, tmp, fuel);
    case Case(_, _, _) => PreserveCase(w, s, c, n, h, st, tmp, fuel);
    case TryFinally(_, _) => PreserveFinally(w, s, c, n, h, st, tmp, fuel);
    case TryExcept(_, _, _) => PreserveExcept(w, s, c, n, h, st, tmp, fuel);
    case _ => SimpleRuns(w, s, c, n, h, st, tmp, fuel);
  }

  lemma {:induction false} PreserveCompound(w: World, s: Stmt, c: Context, n: Counters, h: Option<Exc>, st: Store,
                                            tmp: Temps, fuel: nat)
    requires w.strict && Numbered(c, n) && s.Compound?
    ensures Matches(Run(w, s, h, st, fuel), ExecBlock(w.isa, Lower(s, c, n).code, h, State(st, tmp), fuel), c, tmp)
    decreases fuel, s, 5
  {
    PreserveSeq(w, s.stmts, c, n, h, st, tmp, fuel);
    ExecOne(w.isa, TBlock(LowerSeq(s.stmts, c, n).code), h, State(st, tmp), fuel);
  }

  lemma {:induction false} PreserveWhile(w: World, s: Stmt, c: Context, n: Counters, h: Option<Exc>, st: Store,
                                         tmp: Temps, fuel: nat)
    requires w.strict && Numbered(c, n) && s.While?
    ensures Matches(Run(w, s, h, st, fuel), ExecBlock(w.isa, Lower(s, c, n).code, h, State(st, tmp), fuel), c, tmp)
    decreases fuel, s, 5
  {
    var k := n.loops + 1;
    var code := Lower(s.body, c.Loop(k), n.(loops := k)).code;
    PreserveBody(w, s.body, c, n, h, fuel);
    WhileSimulates(w, s.cond, s.body, code, c, k, h, st, tmp, fuel);
    LoopBlock(w.isa, WhileLoop(k, s.cond, code), k, h, State(st, tmp), fuel);
  }

  lemma {:induction false} PreserveRepeat(w: World, s: Stmt, c: Context, n: Counters, h: Option<Exc>, st: Store,
                                          tmp: Temps, fuel: nat)
    requires w.strict && Numbered(c, n) && s.Repeat?
    ensures Matches(Run(w, s, h, st, fuel), ExecBlock(w.isa, Lower(s, c, n).code, h, State(st, tmp), fuel), c, tmp)
    decreases fuel, s, 5
  {
    var k := n.loops + 1;
    var code := LowerSeq(s.stmts, c.Loop(k), n.(loops := k)).code;
    PreserveSeqBody(w, s.stmts, c, n, h, fuel);
    RepeatSimulates(w, s.stmts, s.cond, code, c, k, h, st, tmp, fuel);
    LoopBlock(w.isa, RepeatLoop(k, code, s.cond), k, h, State(st, tmp), fuel);
  }

  lemma {:induction false} PreserveFor(w: World, s: Stmt, c: Context, n: Counters, h: Option<Exc>, st: Store,
                                       tmp: Temps, fuel: nat)
    requires w.strict && Numbered(c, n) && s.For?
    ensures Matches(Run(w, s, h, st, fuel), ExecBlock(w.isa, Lower(s, c, n).code, h, State(st, tmp), fuel), c, tmp)
    decreases fuel, s, 5
  {
    var k := n.loops + 1;
    var code := Lower(s.body, c.Loop(k), n.(loops := k)).code;
    PreserveBody(w, s.body, c, n, h, fuel);
    ForBlockSimulates(w, s, code, c, k, h, st, tmp, fuel);
    LoopBlock(w.isa, ForBlock(k, s.x, s.car, s.from, s.to, s.downto, code), k, h, State(st, tmp), fuel);
  }

  lemma {:induction false} PreserveForInSet(w: World, s: Stmt, c: Context, n: Counters, h: Option<Exc>, st: Store,
                                            tmp: Temps, fuel: nat)
    requires w.strict && Numbered(c, n) && s.ForInSet?
    ensures Matches(Run(w, s, h, st, fuel), ExecBlock(w.isa, Lower(s, c, n).code, h, State(st, tmp), fuel), c, tmp)
    decreases fuel, s, 5
  {
    var k := n.loops + 1;
    var code := Lower(s.body, c.Loop(k), n.(loops := k)).code;
    PreserveBody(w, s.body, c, n, h, fuel);
    SetBlockSimulates(w, s, code, c, k, h, st, tmp, fuel);
    LoopBlock(w.isa, SetBlock(k, s.x, s.car, s.lo, s.hi, s.e, code), k, h, State(st, tmp), fuel);
  }

  lemma {:induction false} PreserveSeq(w: World, ss: seq<Stmt>, c: Context, n: Counters, h: Option<Exc>, st: Store,
                                       tmp: Temps, fuel: nat)
    requires w.strict && Numbered(c, n)
    ensures Matches(RunSeq(w, ss, h, st, fuel), ExecBlock(w.isa, LowerSeq(ss, c, n).code, h, State(st, tmp), fuel),
                    c, tmp)
    decreases fuel, ss, 5
  {
    if ss != [] {
      var r1 := Lower(ss[0], c, n);
      var r2 := LowerSeq(ss[1..], c, r1.n);
      var o := Run(w, ss[0], h, st, fuel);
      Preserve(w, ss[0], c, n, h, st, tmp, fuel);
      CounterGrows(ss[0], c, n);
      ExecAppend(w.isa, r1.code, r2.code, h, State(st, tmp), fuel);
      if o.Done? {
        PreserveSeq(w, ss[1..], c, r1.n, h, o.st, tmp, fuel);
      } else if c.InLoop() && (o.Broke? || o.Continued?) {
        var l := if o.Broke? then BreakLabel(c.Top()) else ContinueLabel(c.Top());
        TopNumbered(c, n);
        NoOldLabelSeq(ss[1..], c, r1.n, l);
        GotoLost(w.isa, l, State(o.st, tmp), r2.code, h, fuel);
      }
    }
  }

  lemma {:induction false} PreserveIf(w: World, s: Stmt, c: Context, n: Counters, h: Option<Exc>, st: Store,
                                      tmp: Temps, fuel: nat)
    requires w.strict && Numbered(c, n) && s.If?
    ensures Matches(Run(w, s, h, st, fuel), ExecBlock(w.isa, Lower(s, c, n).code, h, State(st, tmp), fuel), c, tmp)
    decreases fuel, s, 5
  {
    ExecOne(w.isa, Lower(s, c, n).code[0], h, State(st, tmp), fuel);
    match s.cond(st)
    case Value(v, st1) =>
      if Truth(v) {
        Preserve(w, s.thn, c, n, h, st1, tmp, fuel);
      } else {
        CounterGrows(s.thn, c, n);
        PreserveElse(w, s.els, c, Lower(s.thn, c, n).n, h, st1, tmp, fuel);
      }
    case Raises(_, _) =>
  }

  lemma {:induction false} PreserveElse(w: World, els: Option<Stmt>, c: Context, n: Counters, h: Option<Exc>,
                                        st: Store, tmp: Temps, fuel: nat)
    requires w.strict && Numbered(c, n)
    ensures Matches(if els.Some? then Run(w, els.value, h, st, fuel) else Done(st),
                    ExecBlock(w.isa, LowerElse(els, c, n).code, h, State(st, tmp), fuel), c, tmp)
    decreases fuel, els, 5
  {
    if els.Some? {
      Preserve(w, els.value, c, n, h, st, tmp, fuel);
    }
  }

  /** A loop body with its continue label, run inside the labels of loop `n.loops + 1`. */
  lemma {:induction false} PreserveBody(w: World, body: Stmt, c: Context, n: Counters, h: Option<Exc>,
                                        fuel: nat)
    requires w.strict && Numbered(c, n)
    ensures var k := n.loops + 1;
            BodySimulates(w, body, Lower(body, c.Loop(k), n.(loops := k)).code, c, k, h, fuel)
    decreases fuel, body, 7
  {
    var k := n.loops + 1;
    var code := Lower(body, c.Loop(k), n.(loops := k)).code;
    forall tmp: Temps, st: Store, f: nat | f <= fuel
      ensures BodyAgrees(w, body, code, c, k, h, tmp, st, f)
    {
      LoopNumbered(c, n, k);
      Preserve(w, body, c.Loop(k), n.(loops := k), h, st, tmp, f);
      LoopBody(w.isa, code, k, h, State(st, tmp), f);
      BodyImage(Run(w, body, h, st, f), c, k, tmp);
    }
  }

  lemma {:induction false} PreserveSeqBody(w: World, stmts: seq<Stmt>, c: Context, n: Counters, h: Option<Exc>,
                                           fuel: nat)
    requires w.strict && Numbered(c, n)
    ensures var k := n.loops + 1;
            BodySimulates(w, Compound(stmts), LowerSeq(stmts, c.Loop(k), n.(loops := k)).code, c, k, h, fuel)
    decreases fuel, stmts, 7
  {
    var k := n.loops + 1;
    var code := LowerSeq(stmts, c.Loop(k), n.(loops := k)).code;
    forall tmp: Temps, st: Store, f: nat | f <= fuel
      ensures BodyAgrees(w, Compound(stmts), code, c, k, h, tmp, st, f)
    {
      LoopNumbered(c, n, k);
      PreserveSeq(w, stmts, c.Loop(k), n.(loops := k), h, st, tmp, f);
      LoopBody(w.isa, code, k, h, State(st, tmp), f);
      BodyImage(RunSeq(w, stmts, h, st, f), c, k, tmp);
    }
  }

  lemma {:induction false} PreserveCase(w: World, s: Stmt, c: Context, n: Counters, h: Option<Exc>, st: Store,
                                        tmp: Temps, fuel: nat)
    requires w.strict && Numbered(c, n) && s.Case?
    ensures Matches(Run(w, s, h, st, fuel), ExecBlock(w.isa, Lower(s, c, n).code, h, State(st, tmp), fuel), c, tmp)
    decreases fuel, s, 5
  {
    hide Lower, LowerArms, LowerElse, FreshName, CaseName, CaseChain, Exec, ExecBlock, Resume;
    LowerCase(s, c, n);
    var name := FreshName(CaseName(n.cases + 1), c.scope);
    var c', n' := c.(scope := c.scope + {name}), n.(cases := n.cases + 1);
    var r1 := LowerArms(s.arms, c', n');
    var r2 := LowerElse(s.els, c', r1.1);
    var chain := CaseChain(Ref(Selector(name)), s.arms, r1.0, r2.code);
    LetRuns(w.isa, Selector(name), Src(s.e), chain, h, State(st, tmp), fuel);
    if s.e(st).Value? {
      var v, st1 := s.e(st).v, s.e(st).st;
      var o := AfterSelector(w, s, v, h, st1, fuel);
      assert Run(w, s, h, st, fuel) == o;
      PreserveArms(w, s, Selector(name), v, c', n', h, st1, tmp, fuel);
      ImageDrop(o, c, Selector(name), v, tmp);
      ImageScope(o, c, c', tmp[Selector(name) := v]);
    }
  }

  lemma ImageScope(o: Outcome, c: Context, c': Context, tmp: Temps)
    requires c.loops == c'.loops
    ensures Image(o, c, tmp) == Image(o, c', tmp)
  {
  }

  /** What a case statement does once its selector is known. */
  function AfterSelector(w: World, s: Stmt, v: Val, h: Option<Exc>, st: Store, fuel: nat): Outcome
    requires s.Case?
  {
    var k := FirstArm(s.arms, AsNum(v));
    if k < |s.arms| then Run(w, s.arms[k].body, h, st, fuel)
    else if s.els.Some? then Run(w, s.els.value, h, st, fuel)
    else Done(st)
  }

  lemma {:induction false} PreserveArms(w: World, s: Stmt, sel: Temp, v: Val, c: Context, n: Counters, h: Option<Exc>,
                                        st: Store, tmp: Temps, fuel: nat)
    requires w.strict && Numbered(c, n) && s.Case?
    ensures var r1 := LowerArms(s.arms, c, n);
            var chain := CaseChain(Ref(sel), s.arms, r1.0, LowerElse(s.els, c, r1.1).code);
            Matches(AfterSelector(w, s, v, h, st, fuel),
                    ExecBlock(w.isa, chain, h, State(st, tmp[sel := v]), fuel), c, tmp[sel := v])
    decreases fuel, s, 4
  {
    var r1 := LowerArms(s.arms, c, n);
    var tmp1 := tmp[sel := v];
    CaseChainRuns(w.isa, sel, s.arms, r1.0, LowerElse(s.els, c, r1.1).code, h, State(st, tmp1), fuel);
    var k := FirstArm(s.arms, AsNum(v));
    if k < |s.arms| {
      var nk := ArmCode(s.arms, c, n, k);
      Preserve(w, s.arms[k].body, c, nk, h, st, tmp1, fuel);
    } else {
      CounterGrowsArms(s.arms, c, n);
      PreserveElse(w, s.els, c, r1.1, h, st, tmp1, fuel);
    }
  }

  lemma {:induction false} PreserveFinally(w: World, s: Stmt, c: Context, n: Counters,
                                           h: Option<Exc>, st: Store, tmp: Temps, fuel: nat)
    requires w.strict && Numbered(c, n) && s.TryFinally?
    ensures Matches(Run(w, s, h, st, fuel), ExecBlock(w.isa, Lower(s, c, n).code, h, State(st, tmp), fuel), c, tmp)
    decreases fuel, s, 5
  {
    hide Exec, ExecBlock, Resume, RunSeq, Lower, LowerSeq, Image;
    LowerFinally(s, c, n);
    var n' := n.(tries := n.tries + 1);
    var n1 := LowerSeq(s.fin, c, n').n;
    GuardStep(w.isa, LowerSeq(s.fin, c, n').code, LowerSeq(s.stmts, c, n1).code, h, State(st, tmp), fuel);
    CounterGrowsSeq(s.fin, c, n');
    PreserveSeq(w, s.stmts, c, n1, h, st, tmp, fuel);
    var o := RunSeq(w, s.stmts, h, st, fuel);
    if o.Ended() {
      PreserveSeq(w, s.fin, c, n', h, o.st, tmp, fuel);
      var f := RunSeq(w, s.fin, h, o.st, fuel);
      ImageState(o, c, tmp);
      if Legal(AfterFinally(w, o, f)) {
        GuardImage(w, o, f, c, tmp);
      }
    } else if o.Timeout? {
      ImageTimeout(c, tmp);
    }
  }

  lemma {:induction false} PreserveExcept(w: World, s: Stmt, c: Context, n: Counters,
                                          h: Option<Exc>, st: Store, tmp: Temps, fuel: nat)
    requires w.strict && Numbered(c, n) && s.TryExcept?
    ensures Matches(Run(w, s, h, st, fuel), ExecBlock(w.isa, Lower(s, c, n).code, h, State(st, tmp), fuel), c, tmp)
    decreases fuel, s, 5
  {
    hide Run, RunSeq, Exec, ExecBlock, Resume, Lower, LowerSeq, LowerElse, LowerHandlers;
    var n' := n.(tries := n.tries + 1);
    var o := RunSeq(w, s.stmts, h, st, fuel);
    PreserveSeq(w, s.stmts, c, n', h, st, tmp, fuel);
    CounterGrowsSeq(s.stmts, c, n');
    RunTry(w, s, h, st, fuel);
    ExecTry(w.isa, s, c, n, h, State(st, tmp), fuel);
    if o.Raised? {
      var n1 := LowerSeq(s.stmts, c, n').n;
      if s.handlers == [] {
        PreserveElse(w, s.els, c.Handler(None), n1, Some(o.e), o.st, tmp, fuel);
        ImageScope(if s.els.Some? then Run(w, s.els.value, Some(o.e), o.st, fuel) else Done(o.st),
                   c, c.Handler(None), tmp);
      } else if o.e.asException {
        PreserveCatch(w, s, c, n'.tries, n1, o.e, o.st, tmp, fuel);
      } else {
        PreserveCatchAll(w, s, c, n1, o.e, o.st, tmp, fuel);
      }
    }
  }

  lemma RunTry(w: World, s: Stmt, h: Option<Exc>, st: Store, fuel: nat)
    requires w.strict && s.TryExcept?
    ensures var o := RunSeq(w, s.stmts, h, st, fuel);
            Run(w, s, h, st, fuel) ==
            if !o.Raised? then o
            else if s.handlers == [] then
              if s.els.Some? then Run(w, s.els.value, Some(o.e), o.st, fuel) else Done(o.st)
            else if FirstHandler(w.isa, s.handlers, o.e) < |s.handlers| && !o.e.asException then Outside
            else AfterRaise(w, s, o.e, o.st, fuel)
  {
  }

  /** The if-chain emitted for the handlers of a try statement. */
  function TryChain(s: Stmt, c: Context, n: nat, n1: Counters): Code
    requires s.TryExcept?
  {
    var r2 := LowerHandlers(s.handlers, c, n1);
    var r3 := LowerElse(s.els, c.Handler(None), r2.1);
    HandlerChain(n, s.handlers, r2.0, if s.els.Some? then HandlerCode(n, None, r3.code) else [])
  }

  /** The second copy of the else part, which catches everything that is no exception object. */
  function TryRest(s: Stmt, c: Context, n1: Counters): Code
    requires s.TryExcept?
  {
    var n2 := LowerHandlers(s.handlers, c, n1).1;
    LowerElse(s.els, c.Handler(None), LowerElse(s.els, c.Handler(None), n2).n).code
  }

  lemma ExecTry(isa: (nat, nat) -> bool, s: Stmt, c: Context, n: Counters, h: Option<Exc>, s0: State, fuel: nat)
    requires s.TryExcept?
    ensures var k := n.tries + 1;
            var r1 := LowerSeq(s.stmts, c, n.(tries := k));
            var x := ExecBlock(isa, r1.code, h, s0, fuel);
            ExecBlock(isa, Lower(s, c, n).code, h, s0, fuel) ==
            if !x.Throws? then x
            else if s.handlers == [] then
              ExecBlock(isa, LowerElse(s.els, c.Handler(None), r1.n).code, Some(x.e), x.s, fuel)
            else if x.e.asException then
              ExecBlock(isa, CatchCode(k, TryChain(s, c, k, r1.n)), Some(x.e),
                        x.s.(tmp := x.s.tmp[Caught(k) := Obj(x.e)]), fuel).Drop(Caught(k), x.s.tmp)
            else if s.els.Some? then ExecBlock(isa, TryRest(s, c, r1.n), Some(x.e), x.s, fuel)
            else x
  {
    hide Exec, ExecBlock, Resume, LowerSeq, LowerElse, LowerHandlers, HandlerChain, CatchCode;
    var t := Lower(s, c, n).code[0];
    TryRuns(isa, t.code, t.obj, t.all, h, s0, fuel);
  }

  /** How a try statement with handlers goes on after its protected part raised `e`. */
  function AfterRaise(w: World, s: Stmt, e: Exc, st: Store, fuel: nat): Outcome
    requires s.TryExcept?
  {
    var k := FirstHandler(w.isa, s.handlers, e);
    if k < |s.handlers| then
      Unbind(s.handlers[k].binder, st,
             Run(w, s.handlers[k].body, Some(e), Bind(s.handlers[k].binder, e, st), fuel))
    else if s.els.Some? then Run(w, s.els.value, Some(e), st, fuel)
    else Raised(e, st)
  }

  lemma {:induction false} PreserveCatchAll(w: World, s: Stmt, c: Context, n1: Counters, e: Exc, st: Store,
                                            tmp: Temps, fuel: nat)
    requires w.strict && Numbered(c, n1) && s.TryExcept?
    ensures s.els.Some? ==>
              Matches(Run(w, s.els.value, Some(e), st, fuel),
                      ExecBlock(w.isa, TryRest(s, c, n1), Some(e), State(st, tmp), fuel), c, tmp)
    decreases fuel, s, 4
  {
    hide Run, Exec, ExecBlock, Lower, LowerElse, LowerHandlers;
    var n2 := LowerHandlers(s.handlers, c, n1).1;
    CounterGrowsHandlers(s.handlers, c, n1);
    CounterGrowsElse(s.els, c.Handler(None), n2);
    PreserveElse(w, s.els, c.Handler(None), LowerElse(s.els, c.Handler(None), n2).n, Some(e), st, tmp, fuel);
    if s.els.Some? {
      ImageScope(Run(w, s.els.value, Some(e), st, fuel), c, c.Handler(None), tmp);
    }
  }

  /** The if-chain of a catch block, entered with the handled flag down. */
  lemma {:induction false} PreserveChain(w: World, s: Stmt, c: Context, n: nat, n1: Counters, e: Exc, st: Store,
                                         tmp: Temps, fuel: nat)
    requires w.strict && Numbered(c, n1) && s.TryExcept?
    requires Caught(n) in tmp && tmp[Caught(n)] == Obj(e)
    ensures var x := ExecBlock(w.isa, TryChain(s, c, n, n1), Some(e), State(st, tmp), fuel);
            if FirstHandler(w.isa, s.handlers, e) < |s.handlers| || s.els.Some? then
              Matches(AfterRaise(w, s, e, st, fuel), x, c, tmp[HandledFlag(n) := Num(1)])
            else x == Falls(State(st, tmp))
    decreases fuel, s, 3
  {
    hide Run, Exec, ExecBlock, Lower, LowerElse, LowerHandlers, HandlerChain, HandlerCode, Image;
    var isa, s0 := w.isa, State(st, tmp);
    var r2 := LowerHandlers(s.handlers, c, n1);
    var r3 := LowerElse(s.els, c.Handler(None), r2.1);
    var els := if s.els.Some? then HandlerCode(n, None, r3.code) else [];
    var tmp1 := tmp[HandledFlag(n) := Num(1)];
    HandlerChainRuns(isa, n, s.handlers, r2.0, els, e, Some(e), s0, fuel);
    CounterGrowsHandlers(s.handlers, c, n1);
    var k := FirstHandler(isa, s.handlers, e);
    if k < |s.handlers| {
      PreserveHandler(w, s.handlers, k, c, n, n1, e, st, tmp, fuel);
    } else if s.els.Some? {
      HandlerCodeRuns(isa, n, None, r3.code, e, Some(e), s0, fuel);
      PreserveElse(w, s.els, c.Handler(None), r2.1, Some(e), st, tmp1, fuel);
      ImageScope(Run(w, s.els.value, Some(e), st, fuel), c, c.Handler(None), tmp1);
    } else {
      EmptyBlock(isa, Some(e), s0, fuel);
    }
  }

  lemma {:induction false} PreserveHandler(w: World, hs: seq<Handler>, k: nat, c: Context, n: nat, n1: Counters,
                                           e: Exc, st: Store, tmp: Temps, fuel: nat)
    requires w.strict && Numbered(c, n1) && k < |hs|
    requires Caught(n) in tmp && tmp[Caught(n)] == Obj(e)
    ensures Matches(Unbind(hs[k].binder, st, Run(w, hs[k].body, Some(e), Bind(hs[k].binder, e, st), fuel)),
                    ExecBlock(w.isa, HandlerCode(n, hs[k].binder, LowerHandlers(hs, c, n1).0[k]), Some(e),
                              State(st, tmp), fuel),
                    c, tmp[HandledFlag(n) := Num(1)])
    decreases fuel, hs, 5
  {
    hide Run, Exec, ExecBlock, Lower, LowerHandlers, HandlerCode, Image;
    var hd := hs[k];
    assert (hs decreases to hd);
    assert (hd decreases to hd.body);
    var tmp1 := tmp[HandledFlag(n) := Num(1)];
    var nk := HandlerBodyCode(hs, c, n1, k);
    var run := Run(w, hd.body, Some(e), Bind(hd.binder, e, st), fuel);
    HandlerCodeRuns(w.isa, n, hd.binder, LowerHandlers(hs, c, n1).0[k], e, Some(e), State(st, tmp), fuel);
    Preserve(w, hd.body, c.Handler(hd.binder), nk, Some(e), Bind(hd.binder, e, st), tmp1, fuel);
    if Legal(run) {
      ImageUnbind(hd.binder, st, run, c, tmp1);
      ImageScope(run, c, c.Handler(hd.binder), tmp1);
    }
  }

  lemma {:induction false} PreserveCatch(w: World, s: Stmt, c: Context, n: nat, n1: Counters, e: Exc, st: Store,
                                         tmp: Temps, fuel: nat)
    requires w.strict && Numbered(c, n1) && s.TryExcept?
    ensures Matches(AfterRaise(w, s, e, st, fuel),
                    ExecBlock(w.isa, CatchCode(n, TryChain(s, c, n, n1)), Some(e),
                              State(st, tmp[Caught(n) := Obj(e)]), fuel).Drop(Caught(n), tmp), c, tmp)
    decreases fuel, s, 4
  {
    hide Run, Exec, ExecBlock, Lower, LowerElse, LowerHandlers, HandlerChain, HandlerCode, CatchCode, TryChain, Image;
    var tmp1 := tmp[Caught(n) := Obj(e)];
    var tmp2 := tmp1[HandledFlag(n) := Num(0)];
    PreserveChain(w, s, c, n, n1, e, st, tmp2, fuel);
    assert tmp2[HandledFlag(n) := Num(1)] == tmp1[HandledFlag(n) := Num(1)];
    var o := AfterRaise(w, s, e, st, fuel);
    var entered := FirstHandler(w.isa, s.handlers, e) < |s.handlers| || s.els.Some?;
    if Legal(o) {
      CatchBlock(w.isa, n, TryChain(s, c, n, n1), e, st, tmp1, o, entered, c, fuel);
      ImageDrop(o, c, Caught(n), Obj(e), tmp);
    }
  }
}
