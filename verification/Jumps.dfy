/**
  The generated jumps are well formed exactly if the Pascal jumps are: break and continue only inside a
  loop, and none out of a finally part. Well-formed code never loses a jump at run time.
 */
module Jumps {
  import opened Wrappers
  import opened Carriers
  import opened Pascal
  import opened Cxx
  import opened Lowering
  import opened Simulation
  import opened Preservation
  import opened Labels

  // ----- the two notions

  /** Pascal's rule for jumps; the protected and the finally part of a try statement differ. */
  predicate JumpsOk(s: Stmt, inLoop: bool)
    decreases s, 1
  {
    match s
    case Break => inLoop
    case Continue => inLoop
    case Compound(stmts) => JumpsOkSeq(stmts, inLoop)
    case If(_, thn, els) => JumpsOk(thn, inLoop) && (els.Some? ==> JumpsOk(els.value, inLoop))
    case While(_, body) => JumpsOk(body, true)
    case Repeat(stmts, _) => JumpsOkSeq(stmts, true)
    case For(_, _, _, _, _, body) => JumpsOk(body, true)
    case ForInSet(_, _, _, _, _, body) => JumpsOk(body, true)
    case Case(_, arms, els) => JumpsOkArms(arms, inLoop) && (els.Some? ==> JumpsOk(els.value, inLoop))
    case TryFinally(stmts, fin) => JumpsOkSeq(stmts, inLoop) && JumpsOkSeq(fin, false)
    case TryExcept(stmts, hs, els) =>
      JumpsOkSeq(stmts, inLoop) && JumpsOkHandlers(hs, inLoop) && (els.Some? ==> JumpsOk(els.value, inLoop))
    case _ => true
  }

  predicate JumpsOkSeq(ss: seq<Stmt>, inLoop: bool)
    decreases ss, 0
  {
    ss == [] || (JumpsOk(ss[0], inLoop) && JumpsOkSeq(ss[1..], inLoop))
  }

  predicate JumpsOkArms(arms: seq<Arm>, inLoop: bool)
    decreases arms, 0
  {
    arms == [] || (JumpsOk(arms[0].body, inLoop) && JumpsOkArms(arms[1..], inLoop))
  }

  predicate JumpsOkHandlers(hs: seq<Handler>, inLoop: bool)
    decreases hs, 0
  {
    hs == [] || (var hd := hs[0];
                 assert (hs decreases to hd);
                 assert (hd decreases to hd.body);
                 JumpsOk(hd.body, inLoop) && JumpsOkHandlers(hs[1..], inLoop))
  }

  /** The labels defined by the statements of a block, not counting nested blocks. */
  ghost function Here(code: Code): set<Label> {
    if code == [] then {} else (if code[0].TLabel? then {code[0].l} else {}) + Here(code[1..])
  }

  /** C++'s rule: a goto names a label further on in its block or in an enclosing block, plain break and
      continue stand in a loop, and the lambda of a guard sees neither. */
  ghost predicate Scoped(t: TStmt, outer: set<Label>, loop: bool)
    decreases t, 0
  {
    match t
    case TGoto(l) => l in outer
    case TBreak => loop
    case TContinue => loop
    case TBlock(code) => ScopedCode(code, outer, loop)
    case TLet(_, _, code) => ScopedCode(code, outer, loop)
    case TLocal(_, _, code) => ScopedCode(code, outer, loop)
    case TIf(_, thn, els) => ScopedCode(thn, outer, loop) && ScopedCode(els, outer, loop)
    case TWhile(_, code) => ScopedCode(code, outer, true)
    case TDoWhile(code, _) => ScopedCode(code, outer, true)
    case TGuard(fin, code) => ScopedCode(fin, {}, false) && ScopedCode(code, outer, loop)
    case TTry(code, obj, all) =>
      && ScopedCode(code, outer, loop)
      && (obj.Some? ==> ScopedCode(obj.value.code, outer, loop))
      && (all.CatchAll? ==> ScopedCode(all.code, outer, loop))
    case _ => true
  }

  ghost predicate ScopedCode(code: Code, outer: set<Label>, loop: bool)
    decreases code, 1
  {
    code == [] || (Scoped(code[0], outer + Here(code[1..]), loop) && ScopedCode(code[1..], outer, loop))
  }

  ghost predicate ScopedAll(codes: seq<Code>, outer: set<Label>, loop: bool) {
    codes == [] || (ScopedCode(codes[0], outer, loop) && ScopedAll(codes[1..], outer, loop))
  }

  // ----- blocks

  lemma {:induction false} HereIsLabelAt(code: Code, l: Label)
    ensures l in Here(code) <==> LabelAt(code, l) >= 0
  {
    if code != [] {
      HereIsLabelAt(code[1..], l);
    }
  }

  lemma {:induction false} HereAppend(a: Code, b: Code)
    ensures Here(a + b) == Here(a) + Here(b)
  {
    if a == [] {
      assert a + b == b;
    } else {
      assert (a + b)[1..] == a[1..] + b;
      HereAppend(a[1..], b);
    }
  }

  lemma {:induction false} ScopedAppend(a: Code, b: Code, outer: set<Label>, loop: bool)
    ensures ScopedCode(a + b, outer, loop) <==>
            ScopedCode(a, outer + Here(b), loop) && ScopedCode(b, outer, loop)
  {
    if a == [] {
      assert a + b == b;
    } else {
      assert (a + b)[1..] == a[1..] + b && (a + b)[0] == a[0];
      HereAppend(a[1..], b);
      assert outer + Here(a[1..] + b) == outer + Here(b) + Here(a[1..]);
      ScopedAppend(a[1..], b, outer, loop);
    }
  }

  lemma ScopedOne(t: TStmt, outer: set<Label>, loop: bool)
    ensures ScopedCode([t], outer, loop) <==> Scoped(t, outer, loop)
  {
    assert [t][1..] == [] && outer + Here([]) == outer;
  }

  lemma ScopedTwo(t: TStmt, u: TStmt, outer: set<Label>, loop: bool)
    ensures ScopedCode([t, u], outer, loop) <==>
            Scoped(t, outer + (if u.TLabel? then {u.l} else {}), loop) && Scoped(u, outer, loop)
  {
    assert [t, u][1..] == [u] && [u][1..] == [];
    assert Here([u]) == if u.TLabel? then {u.l} else {};
    ScopedOne(u, outer, loop);
  }

  lemma HereLabel(l: Label)
    ensures Here([TLabel(l)]) == {l}
    ensures forall outer: set<Label>, loop: bool :: ScopedCode([TLabel(l)], outer, loop)
  {
    assert [TLabel(l)][1..] == [];
    forall outer: set<Label>, loop: bool {
      ScopedOne(TLabel(l), outer, loop);
    }
  }

  // ----- loops

  /** The labels a loop body sees. */
  ghost function Inside(k: nat, outer: set<Label>): set<Label> {
    outer + {BreakLabel(k)} + {ContinueLabel(k)}
  }

  lemma ScopedLoop(k: nat, inner: TStmt, outer: set<Label>, loop: bool)
    requires !inner.TLabel?
    ensures ScopedCode(LoopCode(k, inner), outer, loop) <==> Scoped(inner, outer + {BreakLabel(k)}, loop)
  {
    ScopedTwo(inner, TLabel(BreakLabel(k)), outer, loop);
  }

  lemma ScopedBody(k: nat, body: Code, outer: set<Label>)
    ensures ScopedCode(body + [TLabel(ContinueLabel(k))], outer + {BreakLabel(k)}, true) <==>
            ScopedCode(body, Inside(k, outer), true)
  {
    ScopedAppend(body, [TLabel(ContinueLabel(k))], outer + {BreakLabel(k)}, true);
    HereLabel(ContinueLabel(k));
  }

  lemma ScopedFor(k: nat, s: Stmt, body: Code, outer: set<Label>, loop: bool)
    requires s.For?
    ensures Scoped(ForBlock(k, s.x, s.car, s.from, s.to, s.downto, body), outer + {BreakLabel(k)}, loop) <==>
            ScopedCode(body, Inside(k, outer), true)
  {
    hide Lower, Here, ForLoop, ForTail, Inside;
    var out := outer + {BreakLabel(k)};
    var middle := ForBlock(k, s.x, s.car, s.from, s.to, s.downto, body).code[0];
    var guarded := middle.code[0];
    ScopedOne(middle, out, loop);
    ScopedOne(guarded, out, loop);
    ScopedForLoop(k, s.x, s.car, s.downto, body, outer, guarded.thn[0], loop);
  }

  /** The assignment of the first value and the endless loop after it. */
  lemma ScopedForLoop(k: nat, x: string, car: Carrier, downto: bool, body: Code, outer: set<Label>, start: TStmt,
                      loop: bool)
    requires start.TSet?
    ensures ScopedCode([start, ForLoop(k, x, car, downto, body)], outer + {BreakLabel(k)}, loop) <==>
            ScopedCode(body, Inside(k, outer), true)
  {
    hide Lower, Here;
    var out := outer + {BreakLabel(k)};
    var inside, tail := body + [TLabel(ContinueLabel(k))], ForTail(x, car, downto);
    HereNone(tail);
    ScopedTwo(start, ForLoop(k, x, car, downto, body), out, loop);
    assert out + {} == out;
    ScopedAppend(inside, tail, out, true);
    ScopedTwo(tail[0], tail[1], out, true);
    ScopedOne(TBreak, out, true);
    ScopedBody(k, body, outer);
  }

  lemma HereNone(code: Code)
    requires |code| == 2 && !code[0].TLabel? && !code[1].TLabel?
    ensures Here(code) == {}
  {
    assert code[1..] == [code[1]] && Here([code[1]]) == {};
  }

  lemma ScopedSet(k: nat, s: Stmt, body: Code, outer: set<Label>, loop: bool)
    requires s.ForInSet?
    ensures Scoped(SetBlock(k, s.x, s.car, s.lo, s.hi, s.e, body), outer + {BreakLabel(k)}, loop) <==>
            ScopedCode(body, Inside(k, outer), true)
  {
    hide Lower, Here;
    var out := outer + {BreakLabel(k)};
    HereNone(SetTail(k, s.car, s.hi));
    var middle := SetBlock(k, s.x, s.car, s.lo, s.hi, s.e, body).code[0];
    var l := SetLoop(k, s.x, s.car, s.hi, body);
    var visit, tail := SetVisit(k, s.x, body), SetTail(k, s.car, s.hi);
    var assign := TSet(s.x, P(Ref(Item(k))));
    ScopedOne(middle, out, loop);
    ScopedOne(l, out, loop);
    ScopedAppend([visit], tail, out, true);
    assert out + {} == out;
    ScopedOne(visit, out, true);
    ScopedTwo(tail[0], tail[1], out, true);
    ScopedOne(TBreak, out, true);
    ScopedAppend([assign], body + [TLabel(ContinueLabel(k))], out, true);
    ScopedOne(assign, out + Here(body + [TLabel(ContinueLabel(k))]), true);
    ScopedBody(k, body, outer);
  }

  // ----- branches

  lemma {:induction false} ScopedCaseChain(sel: Pure, arms: seq<Arm>, codes: seq<Code>, els: Code,
                                           outer: set<Label>, loop: bool)
    requires |arms| == |codes|
    ensures ScopedCode(CaseChain(sel, arms, codes, els), outer, loop) <==>
            ScopedAll(codes, outer, loop) && ScopedCode(els, outer, loop)
  {
    if arms != [] {
      var rest := CaseChain(sel, arms[1..], codes[1..], els);
      ScopedOne(TIf(P(ArmCondition(sel, arms[0].labels)), codes[0], rest), outer, loop);
      ScopedCaseChain(sel, arms[1..], codes[1..], els, outer, loop);
    }
  }

  lemma ScopedHandlerCode(n: nat, binder: Option<string>, body: Code, outer: set<Label>, loop: bool)
    ensures ScopedCode(HandlerCode(n, binder, body), outer, loop) <==> ScopedCode(body, outer, loop)
  {
    var mark := [TSetTemp(HandledFlag(n), Const(1))];
    if binder.Some? {
      var local := TLocal(binder.value, Ref(Caught(n)), body);
      ScopedAppend(mark, [local], outer, loop);
      ScopedOne(mark[0], outer + Here([local]), loop);
      ScopedOne(local, outer, loop);
    } else {
      ScopedAppend(mark, body, outer, loop);
      ScopedOne(mark[0], outer + Here(body), loop);
    }
  }

  lemma {:induction false} ScopedHandlerChain(n: nat, hs: seq<Handler>, codes: seq<Code>, els: Code,
                                              outer: set<Label>, loop: bool)
    requires |hs| == |codes|
    ensures ScopedCode(HandlerChain(n, hs, codes, els), outer, loop) <==>
            ScopedAll(codes, outer, loop) && ScopedCode(els, outer, loop)
  {
    if hs != [] {
      var rest := HandlerChain(n, hs[1..], codes[1..], els);
      var body := HandlerCode(n, hs[0].binder, codes[0]);
      ScopedOne(TIf(P(HandlerCondition(Ref(Caught(n)), hs[0].cls)), body, rest), outer, loop);
      ScopedHandlerCode(n, hs[0].binder, codes[0], outer, loop);
      ScopedHandlerChain(n, hs[1..], codes[1..], els, outer, loop);
    }
  }

  lemma ScopedTryCode(n: nat, body: Code, chain: Code, all: CatchAll, outer: set<Label>, loop: bool)
    ensures ScopedCode(TryCode(n, body, chain, all), outer, loop) <==>
            && ScopedCode(body, outer, loop) && ScopedCode(chain, outer, loop)
            && (all.CatchAll? ==> ScopedCode(all.code, outer, loop))
  {
    var last := TIf(P(Not(Ref(HandledFlag(n)))), [TRethrow], []);
    ScopedOne(TryCode(n, body, chain, all)[0], outer, loop);
    ScopedOne(CatchCode(n, chain)[0], outer, loop);
    ScopedAppend(chain, [last], outer, loop);
    assert [last][1..] == [] && Here([last]) == {} && outer + {} == outer;
    ScopedOne(last, outer, loop);
    ScopedOne(TRethrow, outer, loop);
  }

  // ----- the equivalence

  /** How the labels and loops around a statement's code agree with the loops around the statement. */
  ghost predicate Frame(c: Context, n: Counters, outer: set<Label>, loop: bool, inLoop: bool) {
    && Numbered(c, n)
    && (inLoop ==> c.InLoop() && BreakLabel(c.Top()) in outer && ContinueLabel(c.Top()) in outer)
    && (!inLoop ==> if c.InLoop() then BreakLabel(c.Top()) !in outer && ContinueLabel(c.Top()) !in outer else !loop)
  }

  lemma FrameLoop(c: Context, n: Counters, outer: set<Label>, k: nat)
    requires Numbered(c, n) && k == n.loops + 1
    ensures Frame(c.Loop(k), n.(loops := k), Inside(k, outer), true, true)
  {
    LoopNumbered(c, n, k);
  }

  /** Labels of the statements that follow do not disturb the frame. */
  lemma FrameRest(ss: seq<Stmt>, c: Context, n: Counters, n1: Counters, outer: set<Label>, loop: bool, inLoop: bool)
    requires Frame(c, n, outer, loop, inLoop) && n.loops <= n1.loops
    ensures Frame(c, n, outer + Here(LowerSeq(ss, c, n1).code), loop, inLoop)
  {
    if c.InLoop() {
      TopNumbered(c, n);
      var b, d := BreakLabel(c.Top()), ContinueLabel(c.Top());
      NoOldLabelSeq(ss, c, n1, b);
      NoOldLabelSeq(ss, c, n1, d);
      HereIsLabelAt(LowerSeq(ss, c, n1).code, b);
      HereIsLabelAt(LowerSeq(ss, c, n1).code, d);
    }
  }

  lemma {:induction false} ScopedIffJumpsOk(s: Stmt, c: Context, n: Counters, outer: set<Label>, loop: bool,
                                            inLoop: bool)
    requires Frame(c, n, outer, loop, inLoop)
    ensures ScopedCode(Lower(s, c, n).code, outer, loop) <==> JumpsOk(s, inLoop)
    decreases s, 4
  {
    match s
    case Compound(stmts) =>
      ScopedSeq(stmts, c, n, outer, loop, inLoop);
      ScopedOne(TBlock(LowerSeq(stmts, c, n).code), outer, loop);
    case If(_, _, _) => ScopedIf(s, c, n, outer, loop, inLoop);
    case While(_, _) => ScopedLoops(s, c, n, outer, loop);
    case Repeat(_, _) => ScopedRepeat(s, c, n, outer, loop);
    case For(_, _, _, _, _, _) => ScopedLoops(s, c, n, outer, loop);
    case ForInSet(_, _, _, _, _, _) => ScopedLoops(s, c, n, outer, loop);
    case Case(_, _, _) => ScopedCase(s, c, n, outer, loop, inLoop);
    case TryFinally(_, _) => ScopedFinally(s, c, n, outer, loop, inLoop);
    case TryExcept(_, _, _) => ScopedTry(s, c, n, outer, loop, inLoop);
    case _ => ScopedSimple(s, c, n, outer, loop, inLoop);
  }

  lemma ScopedSimple(s: Stmt, c: Context, n: Counters, outer: set<Label>, loop: bool, inLoop: bool)
    requires Frame(c, n, outer, loop, inLoop)
    requires Leaf(s)
    ensures ScopedCode(Lower(s, c, n).code, outer, loop) <==> JumpsOk(s, inLoop)
  {
    hide Lower;
    LowerOfLeaf(s, c, n);
    if s.Break? || s.Continue? {
      ScopedJump(s, c, n, outer, loop, inLoop);
    } else if s.Exit? {
      hide Frame;
      if s.value.Some? {
        ScopedTwo(TSetResult(Src(s.value.value)), TReturn, outer, loop);
        assert LowerLeaf(s, c, n).code == [TSetResult(Src(s.value.value)), TReturn];
      } else {
        assert LowerLeaf(s, c, n).code == [TReturn];
        ScopedOne(TReturn, outer, loop);
      }
    } else {
      hide Frame;
      ScopedOne(LowerLeaf(s, c, n).code[0], outer, loop);
    }
  }

  lemma ScopedJump(s: Stmt, c: Context, n: Counters, outer: set<Label>, loop: bool, inLoop: bool)
    requires Frame(c, n, outer, loop, inLoop)
    requires s.Break? || s.Continue?
    ensures ScopedCode(LowerLeaf(s, c, n).code, outer, loop) <==> JumpsOk(s, inLoop)
  {
    ScopedOne(LowerLeaf(s, c, n).code[0], outer, loop);
  }

  lemma {:induction false} ScopedSeq(ss: seq<Stmt>, c: Context, n: Counters, outer: set<Label>, loop: bool,
                                     inLoop: bool)
    requires Frame(c, n, outer, loop, inLoop)
    ensures ScopedCode(LowerSeq(ss, c, n).code, outer, loop) <==> JumpsOkSeq(ss, inLoop)
    decreases ss, 0
  {
    if ss != [] {
      var r1 := Lower(ss[0], c, n);
      var r2 := LowerSeq(ss[1..], c, r1.n);
      CounterGrows(ss[0], c, n);
      FrameRest(ss[1..], c, n, r1.n, outer, loop, inLoop);
      ScopedIffJumpsOk(ss[0], c, n, outer + Here(r2.code), loop, inLoop);
      ScopedSeq(ss[1..], c, r1.n, outer, loop, inLoop);
      ScopedAppend(r1.code, r2.code, outer, loop);
    }
  }

  lemma {:induction false} ScopedElse(els: Option<Stmt>, c: Context, n: Counters, outer: set<Label>, loop: bool,
                                      inLoop: bool)
    requires Frame(c, n, outer, loop, inLoop)
    ensures ScopedCode(LowerElse(els, c, n).code, outer, loop) <==> (els.Some? ==> JumpsOk(els.value, inLoop))
    decreases els, 0
  {
    if els.Some? {
      ScopedIffJumpsOk(els.value, c, n, outer, loop, inLoop);
    }
  }

  lemma {:induction false} ScopedArms(arms: seq<Arm>, c: Context, n: Counters, outer: set<Label>, loop: bool,
                                      inLoop: bool)
    requires Frame(c, n, outer, loop, inLoop)
    ensures ScopedAll(LowerArms(arms, c, n).0, outer, loop) <==> JumpsOkArms(arms, inLoop)
    decreases arms, 0
  {
    if arms != [] {
      var r1 := Lower(arms[0].body, c, n);
      CounterGrows(arms[0].body, c, n);
      ScopedIffJumpsOk(arms[0].body, c, n, outer, loop, inLoop);
      ScopedArms(arms[1..], c, r1.n, outer, loop, inLoop);
      assert LowerArms(arms, c, n).0[1..] == LowerArms(arms[1..], c, r1.n).0;
    }
  }

  lemma {:induction false} ScopedHandlers(hs: seq<Handler>, c: Context, n: Counters, outer: set<Label>, loop: bool,
                                          inLoop: bool)
    requires Frame(c, n, outer, loop, inLoop)
    ensures ScopedAll(LowerHandlers(hs, c, n).0, outer, loop) <==> JumpsOkHandlers(hs, inLoop)
    decreases hs, 0
  {
    if hs != [] {
      var hd := hs[0];
      assert (hs decreases to hd);
      assert (hd decreases to hd.body);
      var ch := c.Handler(hd.binder);
      var r1 := Lower(hd.body, ch, n);
      CounterGrows(hd.body, ch, n);
      ScopedIffJumpsOk(hd.body, ch, n, outer, loop, inLoop);
      ScopedHandlers(hs[1..], c, r1.n, outer, loop, inLoop);
      assert LowerHandlers(hs, c, n).0[1..] == LowerHandlers(hs[1..], c, r1.n).0;
    }
  }

  lemma {:induction false} ScopedIf(s: Stmt, c: Context, n: Counters, outer: set<Label>, loop: bool, inLoop: bool)
    requires Frame(c, n, outer, loop, inLoop) && s.If?
    ensures ScopedCode(Lower(s, c, n).code, outer, loop) <==> JumpsOk(s, inLoop)
    decreases s, 3
  {
    hide Lower, LowerElse;
    LowerIf(s, c, n);
    var r1 := Lower(s.thn, c, n);
    var r2 := LowerElse(s.els, c, r1.n);
    CounterGrows(s.thn, c, n);
    ScopedIffJumpsOk(s.thn, c, n, outer, loop, inLoop);
    ScopedElse(s.els, c, r1.n, outer, loop, inLoop);
    ScopedOne(TIf(Src(s.cond), r1.code, r2.code), outer, loop);
  }

  lemma {:induction false} ScopedLoops(s: Stmt, c: Context, n: Counters, outer: set<Label>, loop: bool)
    requires Numbered(c, n) && (s.While? || s.For? || s.ForInSet?)
    ensures ScopedCode(Lower(s, c, n).code, outer, loop) <==> JumpsOk(s.body, true)
    decreases s, 3
  {
    var k := n.loops + 1;
    hide Lower, ForBlock, SetBlock, LoopCode;
    LowerLoop(s, c, n);
    var r := Lower(s.body, c.Loop(k), n.(loops := k));
    var l := LoopOf(s, k, r.code);
    FrameLoop(c, n, outer, k);
    ScopedIffJumpsOk(s.body, c.Loop(k), n.(loops := k), Inside(k, outer), true, true);
    if s.While? {
      ScopedBody(k, r.code, outer);
    } else if s.For? {
      ForShape(k, s, r.code);
      ScopedFor(k, s, r.code, outer, loop);
    } else {
      SetShape(k, s, r.code);
      ScopedSet(k, s, r.code, outer, loop);
    }
    ScopedLoop(k, l, outer, loop);
  }

  lemma ForShape(k: nat, s: Stmt, body: Code)
    requires s.For?
    ensures ForBlock(k, s.x, s.car, s.from, s.to, s.downto, body).TLet?
  {
  }

  lemma SetShape(k: nat, s: Stmt, body: Code)
    requires s.ForInSet?
    ensures SetBlock(k, s.x, s.car, s.lo, s.hi, s.e, body).TLet?
  {
  }

  lemma {:induction false} ScopedRepeat(s: Stmt, c: Context, n: Counters, outer: set<Label>, loop: bool)
    requires Numbered(c, n) && s.Repeat?
    ensures ScopedCode(Lower(s, c, n).code, outer, loop) <==> JumpsOkSeq(s.stmts, true)
    decreases s, 3
  {
    var k := n.loops + 1;
    hide Lower, LowerSeq, LoopCode;
    LowerRepeat(s, c, n);
    var r := LowerSeq(s.stmts, c.Loop(k), n.(loops := k));
    FrameLoop(c, n, outer, k);
    ScopedSeq(s.stmts, c.Loop(k), n.(loops := k), Inside(k, outer), true, true);
    ScopedBody(k, r.code, outer);
    ScopedLoop(k, RepeatLoop(k, r.code, s.cond), outer, loop);
  }

  lemma {:induction false} ScopedCase(s: Stmt, c: Context, n: Counters, outer: set<Label>, loop: bool, inLoop: bool)
    requires Frame(c, n, outer, loop, inLoop) && s.Case?
    ensures ScopedCode(Lower(s, c, n).code, outer, loop) <==> JumpsOk(s, inLoop)
    decreases s, 3
  {
    hide Lower, LowerArms, LowerElse, FreshName, CaseName, CaseChain;
    LowerCase(s, c, n);
    var name := FreshName(CaseName(n.cases + 1), c.scope);
    var c', n' := c.(scope := c.scope + {name}), n.(cases := n.cases + 1);
    var r1 := LowerArms(s.arms, c', n');
    var r2 := LowerElse(s.els, c', r1.1);
    var chain := CaseChain(Ref(Selector(name)), s.arms, r1.0, r2.code);
    CounterGrowsArms(s.arms, c', n');
    ScopedArms(s.arms, c', n', outer, loop, inLoop);
    ScopedElse(s.els, c', r1.1, outer, loop, inLoop);
    ScopedCaseChain(Ref(Selector(name)), s.arms, r1.0, r2.code, outer, loop);
    ScopedOne(TLet(Selector(name), Src(s.e), chain), outer, loop);
  }

  lemma {:induction false} ScopedFinally(s: Stmt, c: Context, n: Counters, outer: set<Label>, loop: bool, inLoop: bool)
    requires Frame(c, n, outer, loop, inLoop) && s.TryFinally?
    ensures ScopedCode(Lower(s, c, n).code, outer, loop) <==> JumpsOk(s, inLoop)
    decreases s, 3
  {
    var n' := n.(tries := n.tries + 1);
    hide Lower, LowerSeq;
    LowerFinally(s, c, n);
    var r1 := LowerSeq(s.fin, c, n');
    var r2 := LowerSeq(s.stmts, c, r1.n);
    CounterGrowsSeq(s.fin, c, n');
    ScopedSeq(s.fin, c, n', {}, false, false);
    ScopedSeq(s.stmts, c, r1.n, outer, loop, inLoop);
    ScopedOne(TGuard(r1.code, r2.code), outer, loop);
  }

  lemma {:induction false} ScopedTry(s: Stmt, c: Context, n: Counters, outer: set<Label>, loop: bool, inLoop: bool)
    requires Frame(c, n, outer, loop, inLoop) && s.TryExcept?
    ensures ScopedCode(Lower(s, c, n).code, outer, loop) <==> JumpsOk(s, inLoop)
    decreases s, 3
  {
    hide Lower, LowerSeq, LowerElse, TryChain, TryRest, TryCounters, TryCode;
    var n' := n.(tries := n.tries + 1);
    var r1 := LowerSeq(s.stmts, c, n');
    ScopedSeq(s.stmts, c, n', outer, loop, inLoop);
    CounterGrowsSeq(s.stmts, c, n');
    LowerTry(s, c, n);
    if s.handlers == [] {
      var r2 := LowerElse(s.els, c.Handler(None), r1.n);
      ScopedElse(s.els, c.Handler(None), r1.n, outer, loop, inLoop);
      ScopedOne(TTry(r1.code, None, CatchAll(r2.code)), outer, loop);
    } else {
      ScopedCatch(s, c, n'.tries, r1.n, outer, loop, inLoop);
      ScopedTryCode(n'.tries, r1.code, TryChain(s, c, n'.tries, r1.n),
                    if s.els.Some? then CatchAll(TryRest(s, c, r1.n)) else NoCatchAll, outer, loop);
    }
  }

  lemma {:induction false} ScopedCatch(s: Stmt, c: Context, k: nat, n1: Counters, outer: set<Label>, loop: bool,
                                       inLoop: bool)
    requires Frame(c, n1, outer, loop, inLoop) && s.TryExcept?
    ensures ScopedCode(TryChain(s, c, k, n1), outer, loop) <==>
            JumpsOkHandlers(s.handlers, inLoop) && (s.els.Some? ==> JumpsOk(s.els.value, inLoop))
    ensures ScopedCode(TryRest(s, c, n1), outer, loop) <==> (s.els.Some? ==> JumpsOk(s.els.value, inLoop))
    decreases s, 2
  {
    var ch := c.Handler(None);
    var r2 := LowerHandlers(s.handlers, c, n1);
    var r3 := LowerElse(s.els, ch, r2.1);
    var els := if s.els.Some? then HandlerCode(k, None, r3.code) else [];
    hide Lower, LowerElse, LowerHandlers, HandlerChain, HandlerCode, JumpsOk;
    CounterGrowsHandlers(s.handlers, c, n1);
    CounterGrowsElse(s.els, ch, r2.1);
    ScopedHandlers(s.handlers, c, n1, outer, loop, inLoop);
    ScopedElse(s.els, ch, r2.1, outer, loop, inLoop);
    ScopedElse(s.els, ch, r3.n, outer, loop, inLoop);
    ScopedHandlerCode(k, None, r3.code, outer, loop);
    ScopedHandlerChain(k, s.handlers, r2.0, els, outer, loop);
  }

  // ----- jumps at run time

  /** What an end of scoped code can be. */
  ghost predicate SafeEnd(o: TOut, outer: set<Label>, loop: bool) {
    && !o.IllFormed?
    && (o.Goes? ==> o.l in outer)
    && (o.Breaks? || o.Continues? ==> loop)
  }

  /** Scoped code never ends in a jump that nothing around it catches. */
  lemma {:induction false} ScopedIsSafe(isa: (nat, nat) -> bool, t: TStmt, outer: set<Label>, loop: bool,
                                        h: Option<Exc>, s: State, fuel: nat)
    requires Scoped(t, outer, loop)
    ensures SafeEnd(Exec(isa, t, h, s, fuel), outer, loop)
    decreases fuel, t, 1
  {
    hide ExecBlock, Resume, ScopedCode;
    match t
    case TBlock(code) => ScopedCodeIsSafe(isa, code, outer, loop, h, s, fuel);
    case TLet(x, e, code) =>
      if EvalT(isa, e, s).TValue? {
        var s1 := EvalT(isa, e, s).s;
        ScopedCodeIsSafe(isa, code, outer, loop, h, s1.(tmp := s1.tmp[x := EvalT(isa, e, s).v]), fuel);
      }
    case TLocal(x, p, code) =>
      ScopedCodeIsSafe(isa, code, outer, loop, h, s.(st := s.st.Set(x, AsNum(Look(isa, p, s)))), fuel);
    case TIf(cond, thn, els) =>
      if EvalT(isa, cond, s).TValue? {
        ScopedCodeIsSafe(isa, if Truth(EvalT(isa, cond, s).v) then thn else els, outer, loop, h,
                         EvalT(isa, cond, s).s, fuel);
      }
    case TWhile(_, _) => ScopedLoopIsSafe(isa, t, outer, loop, h, s, fuel);
    case TDoWhile(_, _) => ScopedLoopIsSafe(isa, t, outer, loop, h, s, fuel);
    case TGuard(_, _) => ScopedTryIsSafe(isa, t, outer, loop, h, s, fuel);
    case TTry(_, _, _) => ScopedTryIsSafe(isa, t, outer, loop, h, s, fuel);
    case _ =>
  }

  lemma {:induction false} ScopedLoopIsSafe(isa: (nat, nat) -> bool, t: TStmt, outer: set<Label>, loop: bool,
                                            h: Option<Exc>, s: State, fuel: nat)
    requires Scoped(t, outer, loop) && (t.TWhile? || t.TDoWhile?)
    ensures SafeEnd(Exec(isa, t, h, s, fuel), outer, loop)
    decreases fuel, t, 0
  {
    hide ExecBlock, Resume, ScopedCode;
    if fuel > 0 {
      if t.TWhile? {
        if EvalT(isa, t.cond, s).TValue? {
          var s1 := EvalT(isa, t.cond, s).s;
          ScopedCodeIsSafe(isa, t.code, outer, true, h, s1, fuel);
          var o := ExecBlock(isa, t.code, h, s1, fuel);
          if o.Falls? || o.Continues? {
            ScopedIsSafe(isa, t, outer, loop, h, o.s, fuel - 1);
          }
        }
      } else {
        ScopedCodeIsSafe(isa, t.code, outer, true, h, s, fuel);
        var o := ExecBlock(isa, t.code, h, s, fuel);
        if (o.Falls? || o.Continues?) && EvalT(isa, t.cond, o.s).TValue? {
          ScopedIsSafe(isa, t, outer, loop, h, EvalT(isa, t.cond, o.s).s, fuel - 1);
        }
      }
    }
  }

  lemma {:induction false} ScopedTryIsSafe(isa: (nat, nat) -> bool, t: TStmt, outer: set<Label>, loop: bool,
                                           h: Option<Exc>, s: State, fuel: nat)
    requires Scoped(t, outer, loop) && (t.TGuard? || t.TTry?)
    ensures SafeEnd(Exec(isa, t, h, s, fuel), outer, loop)
    decreases fuel, t, 0
  {
    hide ExecBlock, Resume, ScopedCode;
    ScopedCodeIsSafe(isa, t.code, outer, loop, h, s, fuel);
    var o := ExecBlock(isa, t.code, h, s, fuel);
    if t.TGuard? {
      if o.HasState() {
        ScopedCodeIsSafe(isa, t.fin, {}, false, h, o.s, fuel);
      }
    } else if o.Throws? {
      if t.obj.Some? && o.e.asException {
        ScopedCodeIsSafe(isa, t.obj.value.code, outer, loop, Some(o.e),
                         o.s.(tmp := o.s.tmp[t.obj.value.t := Obj(o.e)]), fuel);
      } else if t.all.CatchAll? {
        ScopedCodeIsSafe(isa, t.all.code, outer, loop, Some(o.e), o.s, fuel);
      }
    }
  }

  lemma {:induction false} ScopedCodeIsSafe(isa: (nat, nat) -> bool, code: Code, outer: set<Label>, loop: bool,
                                            h: Option<Exc>, s: State, fuel: nat)
    requires ScopedCode(code, outer, loop)
    ensures SafeEnd(ExecBlock(isa, code, h, s, fuel), outer, loop)
    decreases fuel, code, 0
  {
    if code != [] {
      var rest := code[1..];
      ScopedIsSafe(isa, code[0], outer + Here(rest), loop, h, s, fuel);
      var o := Exec(isa, code[0], h, s, fuel);
      if o.Falls? {
        ScopedCodeIsSafe(isa, rest, outer, loop, h, o.s, fuel);
      } else if o.Goes? {
        HereIsLabelAt(rest, o.l);
        var k := LabelAt(rest, o.l);
        if k >= 0 {
          ScopedSuffix(rest, k + 1, outer, loop);
          ScopedCodeIsSafe(isa, rest[k + 1..], outer, loop, h, o.s, fuel);
        }
      }
    }
  }

  lemma {:induction false} ScopedSuffix(code: Code, k: nat, outer: set<Label>, loop: bool)
    requires ScopedCode(code, outer, loop) && k <= |code|
    ensures ScopedCode(code[k..], outer, loop)
  {
    if k > 0 {
      assert code[1..][k - 1..] == code[k..];
      ScopedSuffix(code[1..], k - 1, outer, loop);
    }
  }

  /** A routine with legal jumps: its code never ends in a stray jump or in code that C++ rejects. */
  lemma LegalRoutineIsSafe(isa: (nat, nat) -> bool, body: Stmt, scope: set<string>, n: Counters, s: State, fuel: nat)
    requires JumpsOk(body, false)
    ensures var o := ExecBlock(isa, Lower(body, Context([], 0, scope), n).code, None, s, fuel);
            !o.Goes? && !o.Breaks? && !o.Continues? && !o.IllFormed?
  {
    var c := Context([], 0, scope);
    ScopedIffJumpsOk(body, c, n, {}, false, false);
    ScopedCodeIsSafe(isa, Lower(body, c, n).code, {}, false, None, s, fuel);
  }
}
