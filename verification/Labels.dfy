/**
  Label discipline of the generated code: every loop defines its two labels once, every goto names a
  label that follows it in an enclosing block of the same lambda, and code with that discipline never
  loses a jump.
 */
module Labels {
  import opened Wrappers
  import opened Pascal
  import opened Cxx
  import opened Lowering
  import opened Simulation
  import opened Preservation

  // ----- how often a label is defined

  ghost function Count(l: Label, t: TStmt): nat
    decreases t, 0
  {
    match t
    case TLabel(m) => if l == m then 1 else 0
    case TBlock(code) => CountCode(l, code)
    case TLet(_, _, code) => CountCode(l, code)
    case TLocal(_, _, code) => CountCode(l, code)
    case TIf(_, thn, els) => CountCode(l, thn) + CountCode(l, els)
    case TWhile(_, code) => CountCode(l, code)
    case TDoWhile(code, _) => CountCode(l, code)
    case TGuard(fin, code) => CountCode(l, fin) + CountCode(l, code)
    case TTry(code, obj, all) =>
      CountCode(l, code) + (if obj.Some? then CountCode(l, obj.value.code) else 0) +
      (if all.CatchAll? then CountCode(l, all.code) else 0)
    case _ => 0
  }

  ghost function CountCode(l: Label, code: Code): nat
    decreases code, 1
  {
    if code == [] then 0 else Count(l, code[0]) + CountCode(l, code[1..])
  }

  ghost function CountAll(l: Label, codes: seq<Code>): nat {
    if codes == [] then 0 else CountCode(l, codes[0]) + CountAll(l, codes[1..])
  }

  lemma {:induction false} CountAppend(l: Label, a: Code, b: Code)
    ensures CountCode(l, a + b) == CountCode(l, a) + CountCode(l, b)
  {
    if a == [] {
      assert a + b == b;
    } else {
      assert (a + b)[1..] == a[1..] + b;
      CountAppend(l, a[1..], b);
    }
  }

  lemma CountOne(l: Label, t: TStmt)
    ensures CountCode(l, [t]) == Count(l, t)
  {
    assert [t][1..] == [];
  }

  lemma CountTwo(l: Label, t: TStmt, u: TStmt)
    ensures CountCode(l, [t, u]) == Count(l, t) + Count(l, u)
  {
    assert [t, u][1..] == [u];
    CountOne(l, u);
  }

  /** One for the labels of the loops numbered after `n` and up to `n'`, none for others. */
  ghost function Owned(l: Label, n: Counters, n': Counters): nat {
    if n.loops < l.n <= n'.loops then 1 else 0
  }

  /** The loop with number `k` adds its own two labels to those of its body. */
  lemma LoopCounts(l: Label, k: nat, loop: TStmt, body: Code, n: Counters, n': Counters)
    requires k == n.loops + 1 && k <= n'.loops
    requires CountCode(l, body) == Owned(l, n.(loops := k), n')
    requires Count(l, loop) == CountCode(l, body + [TLabel(ContinueLabel(k))])
    ensures CountCode(l, LoopCode(k, loop)) == Owned(l, n, n')
  {
    CountTwo(l, loop, TLabel(BreakLabel(k)));
    CountAppend(l, body, [TLabel(ContinueLabel(k))]);
    CountOne(l, TLabel(ContinueLabel(k)));
  }

  lemma ForLoopCounts(l: Label, k: nat, s: Stmt, body: Code)
    requires s.For?
    ensures Count(l, ForBlock(k, s.x, s.car, s.from, s.to, s.downto, body)) ==
            CountCode(l, body + [TLabel(ContinueLabel(k))])
  {
    var outer := ForBlock(k, s.x, s.car, s.from, s.to, s.downto, body);
    var middle := outer.code[0];
    var guarded := middle.code[0];
    var loop := ForLoop(k, s.x, s.car, s.downto, body);
    var tail := ForTail(s.x, s.car, s.downto);
    CountOne(l, middle);
    CountOne(l, guarded);
    CountTwo(l, guarded.thn[0], loop);
    CountAppend(l, body + [TLabel(ContinueLabel(k))], tail);
    CountTwo(l, tail[0], tail[1]);
    CountOne(l, TBreak);
    assert CountCode(l, []) == 0;
  }

  lemma SetLoopCounts(l: Label, k: nat, s: Stmt, body: Code)
    requires s.ForInSet?
    ensures Count(l, SetBlock(k, s.x, s.car, s.lo, s.hi, s.e, body)) == CountCode(l, body + [TLabel(ContinueLabel(k))])
  {
    var outer := SetBlock(k, s.x, s.car, s.lo, s.hi, s.e, body);
    var middle := outer.code[0];
    var loop := SetLoop(k, s.x, s.car, s.hi, body);
    var visit, tail := SetVisit(k, s.x, body), SetTail(k, s.car, s.hi);
    CountOne(l, middle);
    CountOne(l, loop);
    CountAppend(l, [visit], tail);
    CountOne(l, visit);
    CountAppend(l, [TSet(s.x, P(Ref(Item(k))))], body + [TLabel(ContinueLabel(k))]);
    CountOne(l, TSet(s.x, P(Ref(Item(k)))));
    CountTwo(l, tail[0], tail[1]);
    CountOne(l, TBreak);
    assert CountCode(l, []) == 0;
  }

  lemma {:induction false} CaseChainCounts(l: Label, sel: Pure, arms: seq<Arm>, codes: seq<Code>, els: Code)
    requires |arms| == |codes|
    ensures CountCode(l, CaseChain(sel, arms, codes, els)) == CountAll(l, codes) + CountCode(l, els)
  {
    if arms != [] {
      var rest := CaseChain(sel, arms[1..], codes[1..], els);
      CountOne(l, TIf(P(ArmCondition(sel, arms[0].labels)), codes[0], rest));
      CaseChainCounts(l, sel, arms[1..], codes[1..], els);
    }
  }

  lemma HandlerCodeCounts(l: Label, n: nat, binder: Option<string>, body: Code)
    ensures CountCode(l, HandlerCode(n, binder, body)) == CountCode(l, body)
  {
    var mark := [TSetTemp(HandledFlag(n), Const(1))];
    CountOne(l, mark[0]);
    if binder.Some? {
      var local := TLocal(binder.value, Ref(Caught(n)), body);
      CountAppend(l, mark, [local]);
      CountOne(l, local);
    } else {
      CountAppend(l, mark, body);
    }
  }

  lemma {:induction false} HandlerChainCounts(l: Label, n: nat, hs: seq<Handler>, codes: seq<Code>, els: Code)
    requires |hs| == |codes|
    ensures CountCode(l, HandlerChain(n, hs, codes, els)) == CountAll(l, codes) + CountCode(l, els)
  {
    if hs != [] {
      var rest := HandlerChain(n, hs[1..], codes[1..], els);
      var body := HandlerCode(n, hs[0].binder, codes[0]);
      CountOne(l, TIf(P(HandlerCondition(Ref(Caught(n)), hs[0].cls)), body, rest));
      HandlerCodeCounts(l, n, hs[0].binder, codes[0]);
      HandlerChainCounts(l, n, hs[1..], codes[1..], els);
    }
  }

  lemma CatchCounts(l: Label, n: nat, chain: Code)
    ensures CountCode(l, CatchCode(n, chain)) == CountCode(l, chain)
  {
    var last := TIf(P(Not(Ref(HandledFlag(n)))), [TRethrow], []);
    CountOne(l, CatchCode(n, chain)[0]);
    CountAppend(l, chain, [last]);
    CountOne(l, last);
    CountOne(l, TRethrow);
    assert CountCode(l, []) == 0;
  }

  /** The loops emitted for a statement are numbered consecutively from the counter on, and each defines
      its break label and its continue label exactly once. */
  lemma {:induction false} LabelsDefinedOnce(l: Label, s: Stmt, c: Context, n: Counters)
    ensures CountCode(l, Lower(s, c, n).code) == Owned(l, n, Lower(s, c, n).n)
    decreases s, 4
  {
    match s
    case Compound(stmts) =>
      DefinedOnceSeq(l, stmts, c, n);
      CountOne(l, TBlock(LowerSeq(stmts, c, n).code));
    case If(_, _, _) => DefinedOnceIf(l, s, c, n);
    case While(_, _) => DefinedOnceLoop(l, s, c, n);
    case Repeat(_, _) => DefinedOnceRepeat(l, s, c, n);
    case For(_, _, _, _, _, _) => DefinedOnceLoop(l, s, c, n);
    case ForInSet(_, _, _, _, _, _) => DefinedOnceLoop(l, s, c, n);
    case Case(_, _, _) => DefinedOnceCase(l, s, c, n);
    case TryFinally(_, _) => DefinedOnceFinally(l, s, c, n);
    case TryExcept(_, _, _) => DefinedOnceTry(l, s, c, n);
    case _ => SimpleDefinesNone(l, s, c, n);
  }

  lemma SimpleDefinesNone(l: Label, s: Stmt, c: Context, n: Counters)
    requires Leaf(s)
    ensures CountCode(l, Lower(s, c, n).code) == Owned(l, n, Lower(s, c, n).n)
  {
    hide Lower;
    LowerOfLeaf(s, c, n);
    if s.Exit? {
      if s.value.Some? {
        CountTwo(l, TSetResult(Src(s.value.value)), TReturn);
        assert LowerLeaf(s, c, n).code == [TSetResult(Src(s.value.value)), TReturn];
      } else {
        assert LowerLeaf(s, c, n).code == [TReturn];
        CountOne(l, TReturn);
      }
    } else {
      CountOne(l, LowerLeaf(s, c, n).code[0]);
    }
  }

  lemma {:induction false} DefinedOnceIf(l: Label, s: Stmt, c: Context, n: Counters)
    requires s.If?
    ensures CountCode(l, Lower(s, c, n).code) == Owned(l, n, Lower(s, c, n).n)
    decreases s, 3
  {
    hide Lower, LowerElse;
    LowerIf(s, c, n);
    var r1 := Lower(s.thn, c, n);
    var r2 := LowerElse(s.els, c, r1.n);
    LabelsDefinedOnce(l, s.thn, c, n);
    DefinedOnceElse(l, s.els, c, r1.n);
    CounterGrows(s.thn, c, n);
    CounterGrowsElse(s.els, c, r1.n);
    CountOne(l, TIf(Src(s.cond), r1.code, r2.code));
  }

  lemma {:induction false} DefinedOnceLoop(l: Label, s: Stmt, c: Context, n: Counters)
    requires s.While? || s.For? || s.ForInSet?
    ensures CountCode(l, Lower(s, c, n).code) == Owned(l, n, Lower(s, c, n).n)
    decreases s, 3
  {
    hide Lower, ForBlock, SetBlock, LoopCode;
    LowerLoop(s, c, n);
    var k := n.loops + 1;
    var r := Lower(s.body, c.Loop(k), n.(loops := k));
    LabelsDefinedOnce(l, s.body, c.Loop(k), n.(loops := k));
    CounterGrows(s.body, c.Loop(k), n.(loops := k));
    if s.For? {
      ForLoopCounts(l, k, s, r.code);
    } else if s.ForInSet? {
      SetLoopCounts(l, k, s, r.code);
    }
    LoopCounts(l, k, LoopOf(s, k, r.code), r.code, n, r.n);
  }

  lemma {:induction false} DefinedOnceRepeat(l: Label, s: Stmt, c: Context, n: Counters)
    requires s.Repeat?
    ensures CountCode(l, Lower(s, c, n).code) == Owned(l, n, Lower(s, c, n).n)
    decreases s, 3
  {
    hide Lower, LowerSeq, LoopCode;
    LowerRepeat(s, c, n);
    var k := n.loops + 1;
    var r := LowerSeq(s.stmts, c.Loop(k), n.(loops := k));
    DefinedOnceSeq(l, s.stmts, c.Loop(k), n.(loops := k));
    CounterGrowsSeq(s.stmts, c.Loop(k), n.(loops := k));
    LoopCounts(l, k, LoopOf(s, k, r.code), r.code, n, r.n);
  }

  lemma {:induction false} DefinedOnceSeq(l: Label, ss: seq<Stmt>, c: Context, n: Counters)
    ensures CountCode(l, LowerSeq(ss, c, n).code) == Owned(l, n, LowerSeq(ss, c, n).n)
    decreases ss, 0
  {
    if ss != [] {
      var r1 := Lower(ss[0], c, n);
      LabelsDefinedOnce(l, ss[0], c, n);
      DefinedOnceSeq(l, ss[1..], c, r1.n);
      CounterGrows(ss[0], c, n);
      CounterGrowsSeq(ss[1..], c, r1.n);
      CountAppend(l, r1.code, LowerSeq(ss[1..], c, r1.n).code);
    }
  }

  lemma {:induction false} DefinedOnceElse(l: Label, els: Option<Stmt>, c: Context, n: Counters)
    ensures CountCode(l, LowerElse(els, c, n).code) == Owned(l, n, LowerElse(els, c, n).n)
    decreases els, 0
  {
    if els.Some? {
      LabelsDefinedOnce(l, els.value, c, n);
    }
  }

  lemma {:induction false} DefinedOnceArms(l: Label, arms: seq<Arm>, c: Context, n: Counters)
    ensures CountAll(l, LowerArms(arms, c, n).0) == Owned(l, n, LowerArms(arms, c, n).1)
    decreases arms, 0
  {
    if arms != [] {
      var r1 := Lower(arms[0].body, c, n);
      LabelsDefinedOnce(l, arms[0].body, c, n);
      DefinedOnceArms(l, arms[1..], c, r1.n);
      CounterGrows(arms[0].body, c, n);
      CounterGrowsArms(arms[1..], c, r1.n);
      assert LowerArms(arms, c, n).0[1..] == LowerArms(arms[1..], c, r1.n).0;
    }
  }

  lemma {:induction false} DefinedOnceHandlers(l: Label, hs: seq<Handler>, c: Context, n: Counters)
    ensures CountAll(l, LowerHandlers(hs, c, n).0) == Owned(l, n, LowerHandlers(hs, c, n).1)
    decreases hs, 0
  {
    if hs != [] {
      var hd := hs[0];
      assert (hs decreases to hd);
      assert (hd decreases to hd.body);
      var r1 := Lower(hd.body, c.Handler(hd.binder), n);
      LabelsDefinedOnce(l, hd.body, c.Handler(hd.binder), n);
      DefinedOnceHandlers(l, hs[1..], c, r1.n);
      CounterGrows(hd.body, c.Handler(hd.binder), n);
      CounterGrowsHandlers(hs[1..], c, r1.n);
      assert LowerHandlers(hs, c, n).0[1..] == LowerHandlers(hs[1..], c, r1.n).0;
    }
  }

  lemma {:induction false} DefinedOnceCase(l: Label, s: Stmt, c: Context, n: Counters)
    requires s.Case?
    ensures CountCode(l, Lower(s, c, n).code) == Owned(l, n, Lower(s, c, n).n)
    decreases s, 3
  {
    hide Lower, LowerArms, LowerElse, FreshName, CaseName, CaseChain;
    LowerCase(s, c, n);
    var name := FreshName(CaseName(n.cases + 1), c.scope);
    var c', n' := c.(scope := c.scope + {name}), n.(cases := n.cases + 1);
    var r1 := LowerArms(s.arms, c', n');
    var r2 := LowerElse(s.els, c', r1.1);
    DefinedOnceArms(l, s.arms, c', n');
    DefinedOnceElse(l, s.els, c', r1.1);
    CounterGrowsArms(s.arms, c', n');
    CounterGrowsElse(s.els, c', r1.1);
    CaseChainCounts(l, Ref(Selector(name)), s.arms, r1.0, r2.code);
    CountOne(l, Lower(s, c, n).code[0]);
  }

  lemma OwnedAdds(l: Label, a: Counters, b: Counters, c: Counters)
    requires a.loops <= b.loops <= c.loops
    ensures Owned(l, a, b) + Owned(l, b, c) == Owned(l, a, c)
  {
  }

  lemma OwnedByLoops(l: Label, a: Counters, b: Counters, c: Counters)
    requires a.loops == b.loops
    ensures Owned(l, a, c) == Owned(l, b, c)
  {
  }

  lemma {:induction false} DefinedOnceFinally(l: Label, s: Stmt, c: Context, n: Counters)
    requires s.TryFinally?
    ensures CountCode(l, Lower(s, c, n).code) == Owned(l, n, Lower(s, c, n).n)
    decreases s, 3
  {
    hide Lower, LowerSeq, CountCode, Owned;
    var n' := n.(tries := n.tries + 1);
    LowerFinally(s, c, n);
    var r1 := LowerSeq(s.fin, c, n');
    var r2 := LowerSeq(s.stmts, c, r1.n);
    DefinedOnceSeq(l, s.fin, c, n');
    DefinedOnceSeq(l, s.stmts, c, r1.n);
    CounterGrowsSeq(s.fin, c, n');
    CounterGrowsSeq(s.stmts, c, r1.n);
    OwnedAdds(l, n', r1.n, r2.n);
    OwnedByLoops(l, n, n', r2.n);
    CountOne(l, TGuard(r1.code, r2.code));
  }

  lemma {:induction false} DefinedOnceTry(l: Label, s: Stmt, c: Context, n: Counters)
    requires s.TryExcept?
    ensures CountCode(l, Lower(s, c, n).code) == Owned(l, n, Lower(s, c, n).n)
    decreases s, 3
  {
    hide Lower, LowerSeq, LowerElse, TryChain, TryRest, TryCounters, TryCode;
    var n' := n.(tries := n.tries + 1);
    var r1 := LowerSeq(s.stmts, c, n');
    DefinedOnceSeq(l, s.stmts, c, n');
    CounterGrowsSeq(s.stmts, c, n');
    LowerTry(s, c, n);
    if s.handlers == [] {
      var r2 := LowerElse(s.els, c.Handler(None), r1.n);
      DefinedOnceElse(l, s.els, c.Handler(None), r1.n);
      CounterGrowsElse(s.els, c.Handler(None), r1.n);
      CountOne(l, TTry(r1.code, None, CatchAll(r2.code)));
    } else {
      DefinedOnceCatch(l, s, c, n'.tries, r1.n);
      TryCodeCounts(l, n'.tries, r1.code, TryChain(s, c, n'.tries, r1.n),
                    if s.els.Some? then CatchAll(TryRest(s, c, r1.n)) else NoCatchAll);
    }
  }

  lemma TryCodeCounts(l: Label, k: nat, code: Code, chain: Code, all: CatchAll)
    ensures CountCode(l, TryCode(k, code, chain, all)) ==
            CountCode(l, code) + CountCode(l, chain) + (if all.CatchAll? then CountCode(l, all.code) else 0)
  {
    CatchCounts(l, k, chain);
    CountOne(l, TryCode(k, code, chain, all)[0]);
  }

  lemma LowerTry(s: Stmt, c: Context, n: Counters)
    requires s.TryExcept?
    ensures var k := n.tries + 1;
            var r1 := LowerSeq(s.stmts, c, n.(tries := k));
            var r2 := LowerElse(s.els, c.Handler(None), r1.n);
            Lower(s, c, n) ==
            if s.handlers == [] then Lowered([TTry(r1.code, None, CatchAll(r2.code))], r2.n)
            else Lowered(TryCode(k, r1.code, TryChain(s, c, k, r1.n),
                                 if s.els.Some? then CatchAll(TryRest(s, c, r1.n)) else NoCatchAll),
                         TryCounters(s, c, r1.n))
  {
  }

  /** The counters after the handlers and the two copies of the else part. */
  function TryCounters(s: Stmt, c: Context, n1: Counters): Counters
    requires s.TryExcept?
  {
    var n2 := LowerHandlers(s.handlers, c, n1).1;
    LowerElse(s.els, c.Handler(None), LowerElse(s.els, c.Handler(None), n2).n).n
  }

  lemma {:induction false} DefinedOnceCatch(l: Label, s: Stmt, c: Context, k: nat, n1: Counters)
    requires s.TryExcept?
    ensures CountCode(l, TryChain(s, c, k, n1)) + CountCode(l, TryRest(s, c, n1)) ==
            Owned(l, n1, TryCounters(s, c, n1))
    ensures s.els.None? ==> CountCode(l, TryRest(s, c, n1)) == 0
    ensures n1.loops <= TryCounters(s, c, n1).loops
    decreases s, 2
  {
    var ch := c.Handler(None);
    var r2 := LowerHandlers(s.handlers, c, n1);
    var r3 := LowerElse(s.els, ch, r2.1);
    var r4 := LowerElse(s.els, ch, r3.n);
    var els := if s.els.Some? then HandlerCode(k, None, r3.code) else [];
    assert s.els.None? ==> r3.code == [] && r4.code == [];
    hide Lower, LowerElse, LowerHandlers, HandlerChain, HandlerCode;
    DefinedOnceHandlers(l, s.handlers, c, n1);
    CounterGrowsHandlers(s.handlers, c, n1);
    DefinedOnceElse(l, s.els, ch, r2.1);
    CounterGrowsElse(s.els, ch, r2.1);
    DefinedOnceElse(l, s.els, ch, r3.n);
    CounterGrowsElse(s.els, ch, r3.n);
    HandlerCodeCounts(l, k, None, r3.code);
    HandlerChainCounts(l, k, s.handlers, r2.0, els);
  }
}
