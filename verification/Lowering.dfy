/**
  The statement lowering as a function: which C++ code a Pascal statement becomes, given the enclosing
  loops, the names in local scope, and the counters that number loops, try statements and case
  statements. `Emitter` is the sink-appending program that this function specifies.
 */
module Lowering {
  import opened Wrappers
  import opened Carriers
  import opened Pascal
  import opened Cxx

  /** Running counters, and the number of errors reported so far. */
  datatype Counters = Counters(loops: nat, tries: nat, cases: nat, errors: nat)

  /** `loops` holds the numbers of the loops whose label pairs are pushed, innermost last. */
  datatype Context = Context(loops: seq<nat>, handlers: nat, scope: set<string>) {
    function Loop(k: nat): Context {
      this.(loops := loops + [k])
    }

    function Handler(binder: Option<string>): Context {
      this.(handlers := handlers + 1, scope := if binder.Some? then scope + {binder.value} else scope)
    }

    predicate InLoop() {
      loops != []
    }

    function Top(): nat
      requires InLoop()
    {
      loops[|loops| - 1]
    }
  }

  datatype Lowered = Lowered(code: Code, n: Counters)

  function Digits(n: nat): string {
    var d := [['0', '1', '2', '3', '4', '5', '6', '7', '8', '9'][n % 10]];
    if n < 10 then d else Digits(n / 10) + d
  }

  function CaseName(n: nat): string {
    "tp2cc_case_" + Digits(n)
  }

  /** The case selector's name: underscores are added until the name is not in scope. */
  function FreshName(name: string, scope: set<string>): (r: string)
    ensures r !in scope
    decreases set x | x in scope && |x| >= |name|
  {
    if name !in scope then name else
    FresherName(name, scope);
    FreshName(name + "_", scope)
  }

  lemma FresherName(name: string, scope: set<string>)
    requires name in scope
    ensures (set x | x in scope && |x| >= |name + "_"|) < (set x | x in scope && |x| >= |name|)
  {
    var wide, narrow := set x | x in scope && |x| >= |name|, set x | x in scope && |x| >= |name + "_"|;
    assert narrow <= wide;
    assert name in wide && name !in narrow;
  }

  function LabelCondition(selector: Pure, l: CaseLabel): Pure {
    match l
    case Single(n) => Eq(selector, Const(n))
    case Range(lo, hi) => And(Ge(selector, Const(lo)), Le(selector, Const(hi)))
  }

  function ArmCondition(selector: Pure, labels: seq<CaseLabel>): Pure {
    if labels == [] then Const(0)
    else if |labels| == 1 then LabelCondition(selector, labels[0])
    else Or(ArmCondition(selector, labels[..|labels| - 1]),
            LabelCondition(selector, labels[|labels| - 1]))
  }

  /** if (...) { ... } else if (...) { ... } else { ... } over the arms of a case. */
  function CaseChain(selector: Pure, arms: seq<Arm>, codes: seq<Code>, els: Code): Code
    requires |arms| == |codes|
  {
    if arms == [] then els
    else [TIf(P(ArmCondition(selector, arms[0].labels)), codes[0],
              CaseChain(selector, arms[1..], codes[1..], els))]
  }

  function HandlerCondition(exc: Pure, cls: Option<nat>): Pure {
    if cls.Some? then IsA(exc, cls.value) else Const(1)
  }

  function HandlerCode(n: nat, binder: Option<string>, body: Code): Code {
    [TSetTemp(HandledFlag(n), Const(1))] +
    (if binder.Some? then [TLocal(binder.value, Ref(Caught(n)), body)] else body)
  }

  function HandlerChain(n: nat, handlers: seq<Handler>, codes: seq<Code>, els: Code): Code
    requires |handlers| == |codes|
  {
    if handlers == [] then els
    else [TIf(P(HandlerCondition(Ref(Caught(n)), handlers[0].cls)),
              HandlerCode(n, handlers[0].binder, codes[0]),
              HandlerChain(n, handlers[1..], codes[1..], els))]
  }

  function WhileLoop(k: nat, cond: Expr, body: Code): TStmt {
    TWhile(Src(cond), body + [TLabel(ContinueLabel(k))])
  }

  function RepeatLoop(k: nat, body: Code, cond: Expr): TStmt {
    TDoWhile(body + [TLabel(ContinueLabel(k))], NotSrc(cond))
  }

  function LoopCode(k: nat, loop: TStmt): Code {
    [loop, TLabel(BreakLabel(k))]
  }

  /** The end of a `for` iteration. */
  function ForTail(x: string, car: Carrier, downto: bool): Code {
    [TIf(P(Eq(VarRef(x), Ref(ToBound))), [TBreak], []), TSet(x, P(Step(car, downto, VarRef(x))))]
  }

  /** The endless loop that runs the iterations of a `for`. */
  function ForLoop(k: nat, x: string, car: Carrier, downto: bool, body: Code): TStmt {
    TWhile(P(Const(1)), body + [TLabel(ContinueLabel(k))] + ForTail(x, car, downto))
  }

  function ForBlock(k: nat, x: string, car: Carrier, from: Expr, to: Expr, downto: bool, body: Code): TStmt {
    var guard := if downto then Ge(Ref(FromBound), Ref(ToBound)) else Le(Ref(FromBound), Ref(ToBound));
    TLet(FromBound, Src(from),
         [TLet(ToBound, Src(to),
               [TIf(P(guard),
                    [TSet(x, P(Conv(car, Ref(FromBound)))), ForLoop(k, x, car, downto, body)],
                    [])])])
  }

  /** The start of an iteration over a set: visit the item if it is a member. */
  function SetVisit(k: nat, x: string, body: Code): TStmt {
    TIf(P(Contains(Ref(SetCopy(k)), Ref(Item(k)))),
        [TSet(x, P(Ref(Item(k))))] + (body + [TLabel(ContinueLabel(k))]),
        [])
  }

  /** The end of an iteration over a set. */
  function SetTail(k: nat, car: Carrier, hi: int): Code {
    [TIf(P(Eq(Ref(Item(k)), Conv(car, Const(hi)))), [TBreak], []),
     TSetTemp(Item(k), Step(car, false, Ref(Item(k))))]
  }

  /** The endless loop that walks the element range of a set. */
  function SetLoop(k: nat, x: string, car: Carrier, hi: int, body: Code): TStmt {
    TWhile(P(Const(1)), [SetVisit(k, x, body)] + SetTail(k, car, hi))
  }

  function SetBlock(k: nat, x: string, car: Carrier, lo: int, hi: int, e: Expr, body: Code): TStmt {
    TLet(SetCopy(k), Src(e),
         [TLet(Item(k), P(Conv(car, Const(lo))), [SetLoop(k, x, car, hi, body)])])
  }

  function CatchCode(n: nat, chain: Code): Code {
    [TLet(HandledFlag(n), P(Const(0)), chain + [TIf(P(Not(Ref(HandledFlag(n)))), [TRethrow], [])])]
  }

  function TryCode(n: nat, body: Code, chain: Code, all: CatchAll): Code {
    [TTry(body, Some(Catch(Caught(n), CatchCode(n, chain))), all)]
  }

  function LowerLeaf(s: Stmt, c: Context, n: Counters): Lowered
    requires Leaf(s)
  {
    match s
    case Empty => Lowered([TEmpty], n)
    case Assign(x, e) => Lowered([TSet(x, Src(e))], n)
    case AssignResult(e) => Lowered([TSetResult(Src(e))], n)
    case Eval(e) => Lowered([TEvaluate(Src(e))], n)
    case Break => Lowered([if c.InLoop() then TGoto(BreakLabel(c.Top())) else TBreak], n)
    case Continue => Lowered([if c.InLoop() then TGoto(ContinueLabel(c.Top())) else TContinue], n)
    case Exit(value) => Lowered((if value.Some? then [TSetResult(Src(value.value))] else []) + [TReturn], n)
    case Raise(e) => Lowered([TThrow(Src(e))], n)
    case Reraise => Lowered([TRethrow], if c.handlers == 0 then n.(errors := n.errors + 1) else n)
  }

  function Lower(s: Stmt, c: Context, n: Counters): Lowered
    decreases s, 1
  {
    match s
    case Compound(stmts) =>
      var r := LowerSeq(stmts, c, n);
      Lowered([TBlock(r.code)], r.n)
    case If(cond, thn, els) =>
      var r1 := Lower(thn, c, n);
      var r2 := LowerElse(els, c, r1.n);
      Lowered([TIf(Src(cond), r1.code, r2.code)], r2.n)
    case While(cond, body) =>
      var k := n.loops + 1;
      var r := Lower(body, c.Loop(k), n.(loops := k));
      Lowered(LoopCode(k, WhileLoop(k, cond, r.code)), r.n)
    case Repeat(stmts, cond) =>
      var k := n.loops + 1;
      var r := LowerSeq(stmts, c.Loop(k), n.(loops := k));
      Lowered(LoopCode(k, RepeatLoop(k, r.code, cond)), r.n)
    case For(x, car, from, to, downto, body) =>
      var k := n.loops + 1;
      var r := Lower(body, c.Loop(k), n.(loops := k));
      Lowered(LoopCode(k, ForBlock(k, x, car, from, to, downto, r.code)), r.n)
    case ForInSet(x, car, lo, hi, e, body) =>
      var k := n.loops + 1;
      var r := Lower(body, c.Loop(k), n.(loops := k));
      Lowered(LoopCode(k, SetBlock(k, x, car, lo, hi, e, r.code)), r.n)
    case Case(e, arms, els) =>
      var name := FreshName(CaseName(n.cases + 1), c.scope);
      var c' := c.(scope := c.scope + {name});
      var r1 := LowerArms(arms, c', n.(cases := n.cases + 1));
      var r2 := LowerElse(els, c', r1.1);
      Lowered([TLet(Selector(name), Src(e), CaseChain(Ref(Selector(name)), arms, r1.0, r2.code))], r2.n)
    case TryFinally(stmts, fin) =>
      var r1 := LowerSeq(fin, c, n.(tries := n.tries + 1));
      var r2 := LowerSeq(stmts, c, r1.n);
      Lowered([TGuard(r1.code, r2.code)], r2.n)
    case TryExcept(stmts, handlers, els) =>
      var k := n.tries + 1;
      var r1 := LowerSeq(stmts, c, n.(tries := k));
      if handlers == [] then
        var r2 := LowerElse(els, c.Handler(None), r1.n);
        Lowered([TTry(r1.code, None, CatchAll(r2.code))], r2.n)
      else
        var r2 := LowerHandlers(handlers, c, r1.n);
        if els.None? then
          Lowered(TryCode(k, r1.code, HandlerChain(k, handlers, r2.0, []), NoCatchAll), r2.1)
        else
          var r3 := LowerElse(els, c.Handler(None), r2.1);
          var r4 := LowerElse(els, c.Handler(None), r3.n);
          Lowered(TryCode(k, r1.code,
                          HandlerChain(k, handlers, r2.0, HandlerCode(k, None, r3.code)),
                          CatchAll(r4.code)), r4.n)
    case _ => LowerLeaf(s, c, n)
  }

  function LowerSeq(ss: seq<Stmt>, c: Context, n: Counters): Lowered
    decreases ss, 0
  {
    if ss == [] then Lowered([], n) else
    var r1 := Lower(ss[0], c, n);
    var r2 := LowerSeq(ss[1..], c, r1.n);
    Lowered(r1.code + r2.code, r2.n)
  }

  function LowerElse(els: Option<Stmt>, c: Context, n: Counters): Lowered
    decreases els, 0
  {
    if els.Some? then Lower(els.value, c, n) else Lowered([], n)
  }

  function LowerArms(arms: seq<Arm>, c: Context, n: Counters): (r: (seq<Code>, Counters))
    ensures |r.0| == |arms|
    decreases arms, 0
  {
    if arms == [] then ([], n) else
    var r1 := Lower(arms[0].body, c, n);
    var r2 := LowerArms(arms[1..], c, r1.n);
    ([r1.code] + r2.0, r2.1)
  }

  function LowerHandlers(hs: seq<Handler>, c: Context, n: Counters): (r: (seq<Code>, Counters))
    ensures |r.0| == |hs|
    decreases hs, 0
  {
    if hs == [] then ([], n) else
    var first := hs[0];
    assert (hs decreases to first);
    assert (first decreases to first.body);
    var r1 := Lower(first.body, c.Handler(first.binder), n);
    var r2 := LowerHandlers(hs[1..], c, r1.n);
    ([r1.code] + r2.0, r2.1)
  }

  // ----- the lowering of one construct

  lemma LowerCompound(s: Stmt, c: Context, n: Counters)
    requires s.Compound?
    ensures var r := LowerSeq(s.stmts, c, n); Lower(s, c, n) == Lowered([TBlock(r.code)], r.n)
  {
  }

  lemma LowerIf(s: Stmt, c: Context, n: Counters)
    requires s.If?
    ensures var r1 := Lower(s.thn, c, n);
            var r2 := LowerElse(s.els, c, r1.n);
            Lower(s, c, n) == Lowered([TIf(Src(s.cond), r1.code, r2.code)], r2.n)
  {
  }

  /** The loop statement emitted for a Pascal loop, given its number and the code of its body. */
  function LoopOf(s: Stmt, k: nat, body: Code): TStmt
    requires s.While? || s.Repeat? || s.For? || s.ForInSet?
  {
    if s.While? then WhileLoop(k, s.cond, body)
    else if s.Repeat? then RepeatLoop(k, body, s.cond)
    else if s.For? then ForBlock(k, s.x, s.car, s.from, s.to, s.downto, body)
    else SetBlock(k, s.x, s.car, s.lo, s.hi, s.e, body)
  }

  lemma LowerLoop(s: Stmt, c: Context, n: Counters)
    requires s.While? || s.For? || s.ForInSet?
    ensures var k := n.loops + 1;
            var r := Lower(s.body, c.Loop(k), n.(loops := k));
            Lower(s, c, n) == Lowered(LoopCode(k, LoopOf(s, k, r.code)), r.n)
  {
  }

  lemma LowerRepeat(s: Stmt, c: Context, n: Counters)
    requires s.Repeat?
    ensures var k := n.loops + 1;
            var r := LowerSeq(s.stmts, c.Loop(k), n.(loops := k));
            Lower(s, c, n) == Lowered(LoopCode(k, LoopOf(s, k, r.code)), r.n)
  {
  }

  lemma LowerCase(s: Stmt, c: Context, n: Counters)
    requires s.Case?
    ensures var name := FreshName(CaseName(n.cases + 1), c.scope);
            var c' := c.(scope := c.scope + {name});
            var r1 := LowerArms(s.arms, c', n.(cases := n.cases + 1));
            var r2 := LowerElse(s.els, c', r1.1);
            Lower(s, c, n) ==
            Lowered([TLet(Selector(name), Src(s.e), CaseChain(Ref(Selector(name)), s.arms, r1.0, r2.code))], r2.n)
  {
  }

  lemma LowerFinally(s: Stmt, c: Context, n: Counters)
    requires s.TryFinally?
    ensures var r1 := LowerSeq(s.fin, c, n.(tries := n.tries + 1));
            var r2 := LowerSeq(s.stmts, c, r1.n);
            Lower(s, c, n) == Lowered([TGuard(r1.code, r2.code)], r2.n)
  {
  }

  lemma LowerOfLeaf(s: Stmt, c: Context, n: Counters)
    requires Leaf(s)
    ensures Lower(s, c, n) == LowerLeaf(s, c, n)
  {
  }
}
