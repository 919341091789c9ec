/**
  The statement emitter as the program it is: a recursive walk that appends to a sink while it bumps
  counters, pushes and pops label stacks, and inserts and erases scope entries. Every method is proved
  against `Lowering`, and gives back the stacks and scopes it found.
 */
module Emitter {
  import opened Wrappers
  import opened Pascal
  import opened Cxx
  import opened Lowering
  import opened Preservation
  import opened Labels

  /** The numbers of a stack of labels. */
  function Numbers(labels: seq<Label>): seq<nat> {
    seq(|labels|, i requires 0 <= i < |labels| => labels[i].n)
  }

  lemma NumbersPush(labels: seq<Label>, l: Label)
    ensures Numbers(labels + [l]) == Numbers(labels) + [l.n]
  {
  }

  class EmitStmts {
    var sink: Code
    var loopLabelCounter: nat
    var tryStmtCounter: nat
    var caseStmtCounter: nat
    var errors: nat
    var loopBreakLabels: seq<Label>
    var loopContinueLabels: seq<Label>
    var exceptHandlerDepth: nat
    var localScope: set<string>
    var localValueTypes: map<string, Option<nat>>
    /** The type of a case selector, where it is known. */
    const selectorType: Expr -> Option<nat>

    /** The two label stacks belong to the same loops, and only names in scope have types. */
    ghost predicate Valid()
      reads this
    {
      && |loopBreakLabels| == |loopContinueLabels|
      && (forall i :: 0 <= i < |loopBreakLabels| ==>
            loopBreakLabels[i].BreakLabel? && loopContinueLabels[i] == ContinueLabel(loopBreakLabels[i].n))
      && localValueTypes.Keys <= localScope
    }

    ghost function Ctx(): Context
      reads this
    {
      Context(Numbers(loopBreakLabels), exceptHandlerDepth, localScope)
    }

    ghost function Cnt(): Counters
      reads this
    {
      Counters(loopLabelCounter, tryStmtCounter, caseStmtCounter, errors)
    }

    constructor (selectorType: Expr -> Option<nat>)
      ensures Valid() && sink == [] && Cnt() == Counters(0, 0, 0, 0) && Ctx() == Context([], 0, {})
    {
      this.selectorType := selectorType;
      sink := [];
      loopLabelCounter, tryStmtCounter, caseStmtCounter, errors := 0, 0, 0, 0;
      loopBreakLabels, loopContinueLabels := [], [];
      exceptHandlerDepth := 0;
      localScope, localValueTypes := {}, map[];
    }

    /** Everything that encloses a statement is as it was. */
    twostate predicate Restored()
      reads this
    {
      && loopBreakLabels == old(loopBreakLabels) && loopContinueLabels == old(loopContinueLabels)
      && exceptHandlerDepth == old(exceptHandlerDepth)
      && localScope == old(localScope) && localValueTypes == old(localValueTypes)
    }

    method PushLoop(k: nat)
      requires Valid()
      modifies this`loopBreakLabels, this`loopContinueLabels
      ensures Valid()
      ensures loopBreakLabels == old(loopBreakLabels) + [BreakLabel(k)]
      ensures loopContinueLabels == old(loopContinueLabels) + [ContinueLabel(k)]
      ensures Ctx() == old(Ctx()).Loop(k)
    {
      NumbersPush(loopBreakLabels, BreakLabel(k));
      loopBreakLabels := loopBreakLabels + [BreakLabel(k)];
      loopContinueLabels := loopContinueLabels + [ContinueLabel(k)];
    }

    method PopLoop()
      requires Valid() && loopBreakLabels != []
      modifies this`loopBreakLabels, this`loopContinueLabels
      ensures Valid()
      ensures loopBreakLabels == old(loopBreakLabels)[..|old(loopBreakLabels)| - 1]
      ensures loopContinueLabels == old(loopContinueLabels)[..|old(loopContinueLabels)| - 1]
    {
      loopContinueLabels := loopContinueLabels[..|loopContinueLabels| - 1];
      loopBreakLabels := loopBreakLabels[..|loopBreakLabels| - 1];
    }

    /** Search for a selector name that is not in local scope. */
    method FreshSelector(name: string) returns (selector: string)
      ensures selector == FreshName(name, localScope) && selector !in localScope
    {
      selector := name;
      while selector in localScope
        invariant FreshName(selector, localScope) == FreshName(name, localScope)
        decreases set x | x in localScope && |x| >= |selector|
      {
        FresherName(selector, localScope);
        selector := selector + "_";
      }
    }

    method EmitStmt(s: Stmt)
      requires Valid()
      modifies this
      ensures Valid() && Restored()
      ensures sink == old(sink) + Lower(s, old(Ctx()), old(Cnt())).code
      ensures Cnt() == Lower(s, old(Ctx()), old(Cnt())).n
      decreases s, 1
    {
      hide Lower;
      match s {
        case Compound(_) => EmitCompound(s);
        case If(_, _, _) => EmitIf(s);
        case While(_, _) => EmitLoop(s);
        case Repeat(_, _) => EmitRepeat(s);
        case For(_, _, _, _, _, _) => EmitLoop(s);
        case ForInSet(_, _, _, _, _, _) => EmitLoop(s);
        case Case(_, _, _) => EmitCase(s);
        case TryFinally(_, _) => EmitTryFinally(s);
        case TryExcept(_, _, _) => EmitTryExcept(s);
        case _ => EmitSimple(s);
      }
    }

    method EmitCompound(s: Stmt)
      requires Valid() && s.Compound?
      modifies this
      ensures Valid() && Restored()
      ensures sink == old(sink) + Lower(s, old(Ctx()), old(Cnt())).code
      ensures Cnt() == Lower(s, old(Ctx()), old(Cnt())).n
      decreases s, 0
    {
      hide Lower, LowerSeq;
      LowerCompound(s, Ctx(), Cnt());
      var code := CaptureSeq(s.stmts);
      sink := sink + [TBlock(code)];
    }

    method EmitIf(s: Stmt)
      requires Valid() && s.If?
      modifies this
      ensures Valid() && Restored()
      ensures sink == old(sink) + Lower(s, old(Ctx()), old(Cnt())).code
      ensures Cnt() == Lower(s, old(Ctx()), old(Cnt())).n
      decreases s, 0
    {
      hide Lower, LowerElse;
      LowerIf(s, Ctx(), Cnt());
      var thnCode := CaptureStmt(s.thn);
      var elsCode := CaptureElse(s.els);
      sink := sink + [TIf(Src(s.cond), thnCode, elsCode)];
    }

    /** The finally part is emitted first, as the guard that runs after the protected statements. */
    method EmitTryFinally(s: Stmt)
      requires Valid() && s.TryFinally?
      modifies this
      ensures Valid() && Restored()
      ensures sink == old(sink) + Lower(s, old(Ctx()), old(Cnt())).code
      ensures Cnt() == Lower(s, old(Ctx()), old(Cnt())).n
      decreases s, 0
    {
      hide Lower, LowerSeq;
      LowerFinally(s, Ctx(), Cnt());
      tryStmtCounter := tryStmtCounter + 1;
      var finCode := CaptureSeq(s.fin);
      var code := CaptureSeq(s.stmts);
      sink := sink + [TGuard(finCode, code)];
    }

    /** Statements without nested statements; break and continue go to the labels on top of the stacks. */
    method EmitSimple(s: Stmt)
      requires Valid()
      requires Leaf(s)
      modifies this`sink, this`errors
      ensures sink == old(sink) + Lower(s, Ctx(), old(Cnt())).code
      ensures Cnt() == Lower(s, Ctx(), old(Cnt())).n
    {
      hide Lower;
      LowerOfLeaf(s, Ctx(), Cnt());
      match s {
        case Empty => sink := sink + [TEmpty];
        case Assign(x, e) => sink := sink + [TSet(x, Src(e))];
        case AssignResult(e) => sink := sink + [TSetResult(Src(e))];
        case Eval(e) => sink := sink + [TEvaluate(Src(e))];
        case Break =>
          if loopBreakLabels != [] {
            sink := sink + [TGoto(loopBreakLabels[|loopBreakLabels| - 1])];
          } else {
            sink := sink + [TBreak];
          }
        case Continue =>
          if loopContinueLabels != [] {
            sink := sink + [TGoto(loopContinueLabels[|loopContinueLabels| - 1])];
          } else {
            sink := sink + [TContinue];
          }
        case Exit(value) =>
          if value.Some? {
            sink := sink + [TSetResult(Src(value.value))];
          }
          sink := sink + [TReturn];
        case Raise(e) => sink := sink + [TThrow(Src(e))];
        case Reraise =>
          if exceptHandlerDepth == 0 {
            errors := errors + 1;
          }
          sink := sink + [TRethrow];
      }
    }

    method EmitLoop(s: Stmt)
      requires Valid() && (s.While? || s.For? || s.ForInSet?)
      modifies this
      ensures Valid() && Restored()
      ensures sink == old(sink) + Lower(s, old(Ctx()), old(Cnt())).code
      ensures Cnt() == Lower(s, old(Ctx()), old(Cnt())).n
      decreases s, 0
    {
      hide Lower, ForBlock, SetBlock, LoopCode;
      LowerLoop(s, Ctx(), Cnt());
      var k := loopLabelCounter + 1;
      var code := EmitLoopBody(s.body);
      var loop := if s.While? then WhileLoop(k, s.cond, code)
                  else if s.For? then ForBlock(k, s.x, s.car, s.from, s.to, s.downto, code)
                  else SetBlock(k, s.x, s.car, s.lo, s.hi, s.e, code);
      sink := sink + LoopCode(k, loop);
    }

    method EmitRepeat(s: Stmt)
      requires Valid() && s.Repeat?
      modifies this
      ensures Valid() && Restored()
      ensures sink == old(sink) + Lower(s, old(Ctx()), old(Cnt())).code
      ensures Cnt() == Lower(s, old(Ctx()), old(Cnt())).n
      decreases s, 0
    {
      hide Lower, LowerSeq, LoopCode;
      LowerRepeat(s, Ctx(), Cnt());
      var k := loopLabelCounter + 1;
      loopLabelCounter := k;
      PushLoop(k);
      var code := CaptureSeq(s.stmts);
      PopLoop();
      sink := sink + LoopCode(k, RepeatLoop(k, code, s.cond));
    }

    /** Emit the body of the next loop into a block of its own, inside the loop's labels. */
    method EmitLoopBody(body: Stmt) returns (code: Code)
      requires Valid()
      modifies this
      ensures Valid() && Restored() && sink == old(sink)
      ensures var k := old(loopLabelCounter) + 1;
              var r := Lower(body, old(Ctx()).Loop(k), old(Cnt()).(loops := k));
              code == r.code && Cnt() == r.n
      decreases body, 3
    {
      hide Lower;
      var k := loopLabelCounter + 1;
      loopLabelCounter := k;
      PushLoop(k);
      code := CaptureStmt(body);
      PopLoop();
    }

    /** Emit a nested block: its code goes into a sink of its own. */
    method CaptureStmt(s: Stmt) returns (code: Code)
      requires Valid()
      modifies this
      ensures Valid() && Restored() && sink == old(sink)
      ensures var r := Lower(s, old(Ctx()), old(Cnt())); code == r.code && Cnt() == r.n
      decreases s, 2
    {
      var outer := sink;
      sink := [];
      EmitStmt(s);
      code, sink := sink, outer;
    }

    method CaptureSeq(ss: seq<Stmt>) returns (code: Code)
      requires Valid()
      modifies this
      ensures Valid() && Restored() && sink == old(sink)
      ensures var r := LowerSeq(ss, old(Ctx()), old(Cnt())); code == r.code && Cnt() == r.n
      decreases ss, 2
    {
      var outer := sink;
      sink := [];
      EmitSeq(ss);
      code, sink := sink, outer;
    }

    method CaptureElse(els: Option<Stmt>) returns (code: Code)
      requires Valid()
      modifies this
      ensures Valid() && Restored() && sink == old(sink)
      ensures var r := LowerElse(els, old(Ctx()), old(Cnt())); code == r.code && Cnt() == r.n
      decreases els, 0
    {
      code := [];
      if els.Some? {
        code := CaptureStmt(els.value);
      }
    }

    method EmitSeq(ss: seq<Stmt>)
      requires Valid()
      modifies this
      ensures Valid() && Restored()
      ensures sink == old(sink) + LowerSeq(ss, old(Ctx()), old(Cnt())).code
      ensures Cnt() == LowerSeq(ss, old(Ctx()), old(Cnt())).n
      decreases ss, 0
    {
      var i := 0;
      while i < |ss|
        invariant 0 <= i <= |ss| && Valid() && Restored()
        invariant sink + LowerSeq(ss[i..], old(Ctx()), Cnt()).code ==
                  old(sink) + LowerSeq(ss, old(Ctx()), old(Cnt())).code
        invariant LowerSeq(ss[i..], old(Ctx()), Cnt()).n == LowerSeq(ss, old(Ctx()), old(Cnt())).n
      {
        ghost var before, n := sink, Cnt();
        assert ss[i..][0] == ss[i] && ss[i..][1..] == ss[i + 1..];
        EmitStmt(ss[i]);
        assert before + LowerSeq(ss[i..], old(Ctx()), n).code == sink + LowerSeq(ss[i + 1..], old(Ctx()), Cnt()).code;
        i := i + 1;
      }
    }

    method EmitCase(s: Stmt)
      requires Valid() && s.Case?
      modifies this
      ensures Valid() && Restored()
      ensures sink == old(sink) + Lower(s, old(Ctx()), old(Cnt())).code
      ensures Cnt() == Lower(s, old(Ctx()), old(Cnt())).n
      decreases s, 0
    {
      LowerCase(s, Ctx(), Cnt());
      hide Lower, LowerArms, LowerElse, CaseChain, FreshName, CaseName;
      caseStmtCounter := caseStmtCounter + 1;
      var selector := FreshSelector(CaseName(caseStmtCounter));
      var typed := selectorType(s.e);
      DeclareSelector(selector, typed);
      var codes, els := EmitBranches(s);
      var chain := CaseChain(Ref(Selector(selector)), s.arms, codes, els);
      sink := sink + [TLet(Selector(selector), Src(s.e), chain)];
      EraseSelector(selector, typed);
    }

    method DeclareSelector(selector: string, typed: Option<nat>)
      requires Valid() && selector !in localScope
      modifies this`localScope, this`localValueTypes
      ensures Valid() && Ctx() == old(Ctx()).(scope := old(localScope) + {selector})
      ensures localScope == old(localScope) + {selector}
      ensures localValueTypes == if typed.Some? then old(localValueTypes)[selector := typed] else old(localValueTypes)
    {
      localScope := localScope + {selector};
      if typed.Some? {
        localValueTypes := localValueTypes[selector := typed];
      }
    }

    /** Undo the declaration: the selector was new, so nothing it could have hidden is lost. */
    method EraseSelector(selector: string, typed: Option<nat>)
      requires selector in localScope
      modifies this`localScope, this`localValueTypes
      ensures localScope == old(localScope) - {selector}
      ensures localValueTypes == if typed.Some? then old(localValueTypes) - {selector} else old(localValueTypes)
    {
      if typed.Some? {
        localValueTypes := localValueTypes - {selector};
      }
      localScope := localScope - {selector};
    }

    method EmitBranches(s: Stmt) returns (codes: seq<Code>, els: Code)
      requires Valid() && s.Case?
      modifies this
      ensures Valid() && Restored() && sink == old(sink) && |codes| == |s.arms|
      ensures var r1 := LowerArms(s.arms, old(Ctx()), old(Cnt()));
              var r2 := LowerElse(s.els, old(Ctx()), r1.1);
              codes == r1.0 && els == r2.code && Cnt() == r2.n
      decreases s, -1
    {
      hide LowerArms, LowerElse;
      codes := EmitArms(s.arms);
      els := CaptureElse(s.els);
    }

    method EmitArms(arms: seq<Arm>) returns (codes: seq<Code>)
      requires Valid()
      modifies this
      ensures Valid() && Restored() && sink == old(sink)
      ensures (codes, Cnt()) == LowerArms(arms, old(Ctx()), old(Cnt()))
      decreases arms, 0
    {
      codes := [];
      var i := 0;
      while i < |arms|
        invariant 0 <= i <= |arms| && |codes| == i && Valid() && Restored() && sink == old(sink)
        invariant codes + LowerArms(arms[i..], old(Ctx()), Cnt()).0 == LowerArms(arms, old(Ctx()), old(Cnt())).0
        invariant LowerArms(arms[i..], old(Ctx()), Cnt()).1 == LowerArms(arms, old(Ctx()), old(Cnt())).1
      {
        ghost var before, n := codes, Cnt();
        assert arms[i..][0] == arms[i] && arms[i..][1..] == arms[i + 1..];
        var code := CaptureStmt(arms[i].body);
        codes := codes + [code];
        assert before + LowerArms(arms[i..], old(Ctx()), n).0 == codes + LowerArms(arms[i + 1..], old(Ctx()), Cnt()).0;
        i := i + 1;
      }
      assert codes + [] == codes;
    }

    /** A handler's body sees its binder; the scopes from before the handler come back afterwards. */
    method EmitHandler(h: Handler) returns (code: Code)
      requires Valid()
      modifies this
      ensures Valid() && Restored() && sink == old(sink)
      ensures var r := Lower(h.body, old(Ctx()).Handler(h.binder), old(Cnt())); code == r.code && Cnt() == r.n
      decreases h, 0
    {
      hide Lower;
      var savedLocals, savedTypes := localScope, localValueTypes;
      if h.binder.Some? {
        localScope := localScope + {h.binder.value};
        localValueTypes := localValueTypes[h.binder.value := h.cls];
      }
      exceptHandlerDepth := exceptHandlerDepth + 1;
      code := CaptureStmt(h.body);
      exceptHandlerDepth := exceptHandlerDepth - 1;
      localScope, localValueTypes := savedLocals, savedTypes;
    }

    method EmitHandlers(hs: seq<Handler>) returns (codes: seq<Code>)
      requires Valid()
      modifies this
      ensures Valid() && Restored() && sink == old(sink)
      ensures (codes, Cnt()) == LowerHandlers(hs, old(Ctx()), old(Cnt()))
      decreases hs, 0
    {
      codes := [];
      var i := 0;
      while i < |hs|
        invariant 0 <= i <= |hs| && |codes| == i && Valid() && Restored() && sink == old(sink)
        invariant codes + LowerHandlers(hs[i..], old(Ctx()), Cnt()).0 == LowerHandlers(hs, old(Ctx()), old(Cnt())).0
        invariant LowerHandlers(hs[i..], old(Ctx()), Cnt()).1 == LowerHandlers(hs, old(Ctx()), old(Cnt())).1
      {
        ghost var before, n := codes, Cnt();
        assert hs[i..][0] == hs[i] && hs[i..][1..] == hs[i + 1..];
        var code := EmitHandler(hs[i]);
        codes := codes + [code];
        assert before + LowerHandlers(hs[i..], old(Ctx()), n).0 ==
               codes + LowerHandlers(hs[i + 1..], old(Ctx()), Cnt()).0;
        i := i + 1;
      }
      assert codes + [] == codes;
    }

    /** The else part of a try statement, emitted where a handler's body could stand. */
    method EmitExceptElse(els: Option<Stmt>) returns (code: Code)
      requires Valid()
      modifies this
      ensures Valid() && Restored() && sink == old(sink)
      ensures var r := LowerElse(els, old(Ctx()).Handler(None), old(Cnt())); code == r.code && Cnt() == r.n
      decreases els, 1
    {
      exceptHandlerDepth := exceptHandlerDepth + 1;
      code := CaptureElse(els);
      exceptHandlerDepth := exceptHandlerDepth - 1;
    }

    method EmitTryExcept(s: Stmt)
      requires Valid() && s.TryExcept?
      modifies this
      ensures Valid() && Restored()
      ensures sink == old(sink) + Lower(s, old(Ctx()), old(Cnt())).code
      ensures Cnt() == Lower(s, old(Ctx()), old(Cnt())).n
      decreases s, 0
    {
      LowerTry(s, Ctx(), Cnt());
      hide Lower, LowerSeq, LowerElse, CatchCode, TryChain, TryRest, TryCounters;
      tryStmtCounter := tryStmtCounter + 1;
      var k := tryStmtCounter;
      var code := CaptureSeq(s.stmts);
      if s.handlers == [] {
        var all := EmitExceptElse(s.els);
        sink := sink + [TTry(code, None, CatchAll(all))];
      } else {
        var chain, all := EmitCatch(s, k);
        sink := sink + TryCode(k, code, chain, all);
      }
    }

    /** The handlers of a try statement; the else part is emitted twice, inside the chain and as the last resort. */
    method EmitCatch(s: Stmt, k: nat) returns (chain: Code, all: CatchAll)
      requires Valid() && s.TryExcept?
      modifies this
      ensures Valid() && Restored() && sink == old(sink)
      ensures chain == TryChain(s, old(Ctx()), k, old(Cnt()))
      ensures all == if s.els.Some? then CatchAll(TryRest(s, old(Ctx()), old(Cnt()))) else NoCatchAll
      ensures Cnt() == TryCounters(s, old(Ctx()), old(Cnt()))
      decreases s, -1
    {
      hide Lower, LowerElse, LowerHandlers, HandlerChain, HandlerCode;
      var codes := EmitHandlers(s.handlers);
      if s.els.None? {
        NoElse(Ctx(), Cnt());
        chain, all := HandlerChain(k, s.handlers, codes, []), NoCatchAll;
      } else {
        var first := EmitExceptElse(s.els);
        var second := EmitExceptElse(s.els);
        chain, all := HandlerChain(k, s.handlers, codes, HandlerCode(k, None, first)), CatchAll(second);
      }
    }
  }

  lemma NoElse(c: Context, n: Counters)
    ensures LowerElse(None, c.Handler(None), n) == Lowered([], n)
  {
  }
}
