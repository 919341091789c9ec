/** Names of generated case selectors: none is a name already in scope where it is declared. */
module SelectorNames {
  import opened Wrappers
  import opened Carriers
  import opened Pascal
  import opened Cxx
  import opened Lowering

  /** Every selector declared in `t` avoids `names`, the variables of handlers around it, and outer selectors. */
  predicate Avoids(t: TStmt, names: set<string>)
    decreases t, 0
  {
    match t
    case TLet(Selector(name), _, code) => name !in names && CodeAvoids(code, names + {name})
    case TLet(_, _, code) => CodeAvoids(code, names)
    case TLocal(x, _, code) => CodeAvoids(code, names + {x})
    case TBlock(code) => CodeAvoids(code, names)
    case TIf(_, thn, els) => CodeAvoids(thn, names) && CodeAvoids(els, names)
    case TWhile(_, code) => CodeAvoids(code, names)
    case TDoWhile(code, _) => CodeAvoids(code, names)
    case TGuard(fin, code) => CodeAvoids(fin, names) && CodeAvoids(code, names)
    case TTry(code, obj, all) =>
      && CodeAvoids(code, names)
      && (obj.Some? ==> CodeAvoids(obj.value.code, names))
      && (all.CatchAll? ==> CodeAvoids(all.code, names))
    case _ => true
  }

  predicate CodeAvoids(code: Code, names: set<string>)
    decreases code, 1
  {
    code != [] ==> Avoids(code[0], names) && CodeAvoids(code[1..], names)
  }

  lemma {:induction false} AvoidsAppend(a: Code, b: Code, names: set<string>)
    ensures CodeAvoids(a + b, names) <==> CodeAvoids(a, names) && CodeAvoids(b, names)
  {
    if a == [] {
      assert a + b == b;
    } else {
      assert (a + b)[1..] == a[1..] + b;
      AvoidsAppend(a[1..], b, names);
    }
  }

  lemma AvoidsOne(t: TStmt, names: set<string>)
    ensures CodeAvoids([t], names) <==> Avoids(t, names)
  {
    assert [t][1..] == [];
  }

  lemma AvoidsTwo(t: TStmt, u: TStmt, names: set<string>)
    ensures CodeAvoids([t, u], names) <==> Avoids(t, names) && Avoids(u, names)
  {
    assert [t, u][1..] == [u];
    AvoidsOne(u, names);
  }

  // ----- the pieces a loop, a case and a try are built from

  lemma LoopAvoids(s: Stmt, k: nat, body: Code, names: set<string>)
    requires s.While? || s.Repeat? || s.For? || s.ForInSet?
    requires CodeAvoids(body, names)
    ensures CodeAvoids(LoopCode(k, LoopOf(s, k, body)), names)
  {
    AvoidsTwo(LoopOf(s, k, body), TLabel(BreakLabel(k)), names);
    AvoidsAppend(body, [TLabel(ContinueLabel(k))], names);
    AvoidsOne(TLabel(ContinueLabel(k)), names);
    if s.For? { ForAvoids(s, k, body, names); }
    if s.ForInSet? { SetAvoids(s, k, body, names); }
  }

  lemma ForAvoids(s: Stmt, k: nat, body: Code, names: set<string>)
    requires s.For? && CodeAvoids(body + [TLabel(ContinueLabel(k))], names)
    ensures Avoids(LoopOf(s, k, body), names)
  {
    var outer := ForBlock(k, s.x, s.car, s.from, s.to, s.downto, body);
    var middle := outer.code[0];
    var guarded := middle.code[0];
    var loop, tail := ForLoop(k, s.x, s.car, s.downto, body), ForTail(s.x, s.car, s.downto);
    AvoidsAppend(body + [TLabel(ContinueLabel(k))], tail, names);
    AvoidsTwo(tail[0], tail[1], names);
    AvoidsOne(TBreak, names);
    AvoidsTwo(guarded.thn[0], loop, names);
    assert CodeAvoids([], names);
    assert Avoids(guarded, names);
    AvoidsOne(guarded, names);
    AvoidsOne(middle, names);
  }

  lemma SetAvoids(s: Stmt, k: nat, body: Code, names: set<string>)
    requires s.ForInSet? && CodeAvoids(body + [TLabel(ContinueLabel(k))], names)
    ensures Avoids(LoopOf(s, k, body), names)
  {
    var outer := SetBlock(k, s.x, s.car, s.lo, s.hi, s.e, body);
    var middle := outer.code[0];
    var loop := SetLoop(k, s.x, s.car, s.hi, body);
    var visit, tail := SetVisit(k, s.x, body), SetTail(k, s.car, s.hi);
    var first := TSet(s.x, P(Ref(Item(k))));
    AvoidsOne(first, names);
    AvoidsAppend([first], body + [TLabel(ContinueLabel(k))], names);
    assert CodeAvoids([], names);
    assert Avoids(visit, names);
    AvoidsOne(visit, names);
    AvoidsTwo(tail[0], tail[1], names);
    AvoidsOne(TBreak, names);
    AvoidsAppend([visit], tail, names);
    AvoidsOne(loop, names);
    AvoidsOne(middle, names);
  }

  lemma {:induction false} CaseChainAvoids(selector: Pure, arms: seq<Arm>, codes: seq<Code>, els: Code,
                                           names: set<string>)
    requires |arms| == |codes| && forall i :: 0 <= i < |codes| ==> CodeAvoids(codes[i], names)
    requires CodeAvoids(els, names)
    ensures CodeAvoids(CaseChain(selector, arms, codes, els), names)
    decreases arms
  {
    if arms != [] {
      CaseChainAvoids(selector, arms[1..], codes[1..], els, names);
      AvoidsOne(CaseChain(selector, arms, codes, els)[0], names);
    }
  }

  /** The names in scope in a handler's body: its variable, if it has one, beside those around. */
  function Inside(names: set<string>, binder: Option<string>): set<string> {
    if binder.Some? then names + {binder.value} else names
  }

  lemma HandlerAvoids(n: nat, binder: Option<string>, body: Code, names: set<string>)
    requires CodeAvoids(body, Inside(names, binder))
    ensures CodeAvoids(HandlerCode(n, binder, body), names)
  {
    var flag := TSetTemp(HandledFlag(n), Const(1));
    AvoidsOne(flag, names);
    if binder.Some? {
      var local := TLocal(binder.value, Ref(Caught(n)), body);
      AvoidsOne(local, names);
      AvoidsAppend([flag], [local], names);
    } else {
      AvoidsAppend([flag], body, names);
    }
  }

  lemma {:induction false} HandlerChainAvoids(n: nat, hs: seq<Handler>, codes: seq<Code>, els: Code,
                                              names: set<string>)
    requires |hs| == |codes| && CodeAvoids(els, names)
    requires forall i :: 0 <= i < |hs| ==> CodeAvoids(codes[i], Inside(names, hs[i].binder))
    ensures CodeAvoids(HandlerChain(n, hs, codes, els), names)
    decreases hs
  {
    if hs != [] {
      HandlerAvoids(n, hs[0].binder, codes[0], names);
      HandlerChainAvoids(n, hs[1..], codes[1..], els, names);
      AvoidsOne(HandlerChain(n, hs, codes, els)[0], names);
    }
  }

  lemma TryAvoids(n: nat, body: Code, chain: Code, all: CatchAll, names: set<string>)
    requires CodeAvoids(body, names) && CodeAvoids(chain, names) && (all.CatchAll? ==> CodeAvoids(all.code, names))
    ensures CodeAvoids([TryCode(n, body, chain, all)[0]], names) && CodeAvoids(TryCode(n, body, chain, all), names)
  {
    var rethrow := TIf(P(Not(Ref(HandledFlag(n)))), [TRethrow], []);
    AvoidsOne(TRethrow, names);
    assert CodeAvoids([], names);
    AvoidsOne(rethrow, names);
    AvoidsAppend(chain, [rethrow], names);
    AvoidsOne(CatchCode(n, chain)[0], names);
    AvoidsOne(TryCode(n, body, chain, all)[0], names);
  }

  // ----- the lowering

  /**
   * No selector the translation declares has the name of a local in scope, of the variable of a
   * handler around it, or of the selector of a case around it.
   */
  lemma {:induction false} SelectorsAreFresh(s: Stmt, c: Context, n: Counters)
    ensures CodeAvoids(Lower(s, c, n).code, c.scope)
    decreases s, 1
  {
    hide CodeAvoids;
    match s
    case Compound(stmts) =>
      SeqFresh(stmts, c, n);
      BlockAvoids(LowerSeq(stmts, c, n).code, c.scope);
    case If(cond, thn, els) =>
      SelectorsAreFresh(thn, c, n);
      ElseFresh(els, c, Lower(thn, c, n).n);
      IfAvoids(Src(cond), Lower(thn, c, n).code, LowerElse(els, c, Lower(thn, c, n).n).code, c.scope);
    case While(_, body) => LoopFresh(s, body, c, n);
    case For(_, _, _, _, _, body) => LoopFresh(s, body, c, n);
    case ForInSet(_, _, _, _, _, body) => LoopFresh(s, body, c, n);
    case Repeat(stmts, _) =>
      var k := n.loops + 1;
      SeqFresh(stmts, c.Loop(k), n.(loops := k));
      LowerRepeat(s, c, n);
      LoopAvoids(s, k, LowerSeq(stmts, c.Loop(k), n.(loops := k)).code, c.scope);
    case Case(_, _, _) => CaseFresh(s, c, n);
    case TryFinally(stmts, fin) =>
      SeqFresh(fin, c, n.(tries := n.tries + 1));
      var r1 := LowerSeq(fin, c, n.(tries := n.tries + 1));
      SeqFresh(stmts, c, r1.n);
      GuardAvoids(r1.code, LowerSeq(stmts, c, r1.n).code, c.scope);
    case TryExcept(_, _, _) => ExceptFresh(s, c, n);
    case _ => LeafAvoids(s, c, n);
  }

  lemma LeafAvoids(s: Stmt, c: Context, n: Counters)
    requires Leaf(s)
    ensures CodeAvoids(Lower(s, c, n).code, c.scope)
  {
    var code := LowerLeaf(s, c, n).code;
    LowerOfLeaf(s, c, n);
    AvoidsOne(code[0], c.scope);
    if |code| == 2 { AvoidsTwo(code[0], code[1], c.scope); }
  }

  lemma BlockAvoids(code: Code, names: set<string>)
    requires CodeAvoids(code, names)
    ensures CodeAvoids([TBlock(code)], names)
  {
    AvoidsOne(TBlock(code), names);
  }

  lemma IfAvoids(cond: TExpr, thn: Code, els: Code, names: set<string>)
    requires CodeAvoids(thn, names) && CodeAvoids(els, names)
    ensures CodeAvoids([TIf(cond, thn, els)], names)
  {
    AvoidsOne(TIf(cond, thn, els), names);
  }

  lemma GuardAvoids(fin: Code, code: Code, names: set<string>)
    requires CodeAvoids(fin, names) && CodeAvoids(code, names)
    ensures CodeAvoids([TGuard(fin, code)], names)
  {
    AvoidsOne(TGuard(fin, code), names);
  }

  lemma {:induction false} LoopFresh(s: Stmt, body: Stmt, c: Context, n: Counters)
    requires (s.While? || s.For? || s.ForInSet?) && s.body == body
    ensures CodeAvoids(Lower(s, c, n).code, c.scope)
    decreases body, 2
  {
    var k := n.loops + 1;
    SelectorsAreFresh(body, c.Loop(k), n.(loops := k));
    LowerLoop(s, c, n);
    LoopAvoids(s, k, Lower(body, c.Loop(k), n.(loops := k)).code, c.scope);
  }

  lemma {:induction false} CaseFresh(s: Stmt, c: Context, n: Counters)
    requires s.Case?
    ensures CodeAvoids(Lower(s, c, n).code, c.scope)
    decreases s, 0
  {
    var name := FreshName(CaseName(n.cases + 1), c.scope);
    var c' := c.(scope := c.scope + {name});
    var r1 := LowerArms(s.arms, c', n.(cases := n.cases + 1));
    ArmsFresh(s.arms, c', n.(cases := n.cases + 1));
    ElseFresh(s.els, c', r1.1);
    var els := LowerElse(s.els, c', r1.1).code;
    CaseChainAvoids(Ref(Selector(name)), s.arms, r1.0, els, c'.scope);
    AvoidsOne(TLet(Selector(name), Src(s.e), CaseChain(Ref(Selector(name)), s.arms, r1.0, els)), c.scope);
    LowerCase(s, c, n);
  }

  lemma {:induction false} ExceptFresh(s: Stmt, c: Context, n: Counters)
    requires s.TryExcept?
    ensures CodeAvoids(Lower(s, c, n).code, c.scope)
    decreases s, 0
  {
    hide CodeAvoids;
    var k := n.tries + 1;
    var r1 := LowerSeq(s.stmts, c, n.(tries := k));
    SeqFresh(s.stmts, c, n.(tries := k));
    var inner := c.Handler(None);
    if s.handlers == [] {
      ElseFresh(s.els, inner, r1.n);
      CatchAllAvoids(r1.code, LowerElse(s.els, inner, r1.n).code, c.scope);
    } else {
      var r2 := LowerHandlers(s.handlers, c, r1.n);
      HandlersFresh(s.handlers, c, r1.n);
      ElseFresh(s.els, inner, r2.1);
      var r3 := LowerElse(s.els, inner, r2.1);
      ElseFresh(s.els, inner, r3.n);
      HandlerAvoids(k, None, r3.code, c.scope);
      NothingAvoids(c.scope);
      var els := if s.els.Some? then HandlerCode(k, None, r3.code) else [];
      var all := if s.els.Some? then CatchAll(LowerElse(s.els, inner, r3.n).code) else NoCatchAll;
      HandlerChainAvoids(k, s.handlers, r2.0, els, c.scope);
      TryAvoids(k, r1.code, HandlerChain(k, s.handlers, r2.0, els), all, c.scope);
    }
  }

  lemma NothingAvoids(names: set<string>)
    ensures CodeAvoids([], names)
  {
  }

  lemma CatchAllAvoids(code: Code, all: Code, names: set<string>)
    requires CodeAvoids(code, names) && CodeAvoids(all, names)
    ensures CodeAvoids([TTry(code, None, CatchAll(all))], names)
  {
    AvoidsOne(TTry(code, None, CatchAll(all)), names);
  }

  lemma {:induction false} SeqFresh(ss: seq<Stmt>, c: Context, n: Counters)
    ensures CodeAvoids(LowerSeq(ss, c, n).code, c.scope)
    decreases ss, 0
  {
    if ss != [] {
      SelectorsAreFresh(ss[0], c, n);
      SeqFresh(ss[1..], c, Lower(ss[0], c, n).n);
      AvoidsAppend(Lower(ss[0], c, n).code, LowerSeq(ss[1..], c, Lower(ss[0], c, n).n).code, c.scope);
    }
  }

  lemma {:induction false} ElseFresh(els: Option<Stmt>, c: Context, n: Counters)
    ensures CodeAvoids(LowerElse(els, c, n).code, c.scope)
    decreases els, 0
  {
    if els.Some? { SelectorsAreFresh(els.value, c, n); }
  }

  lemma {:induction false} ArmsFresh(arms: seq<Arm>, c: Context, n: Counters)
    ensures forall i :: 0 <= i < |arms| ==> CodeAvoids(LowerArms(arms, c, n).0[i], c.scope)
    decreases arms, 0
  {
    hide CodeAvoids;
    if arms != [] {
      SelectorsAreFresh(arms[0].body, c, n);
      ArmsFresh(arms[1..], c, Lower(arms[0].body, c, n).n);
    }
  }

  lemma {:induction false} HandlersFresh(hs: seq<Handler>, c: Context, n: Counters)
    ensures forall i :: 0 <= i < |hs| ==> CodeAvoids(LowerHandlers(hs, c, n).0[i], Inside(c.scope, hs[i].binder))
    decreases hs, 0
  {
    hide CodeAvoids;
    if hs != [] {
      var first := hs[0];
      assert (hs decreases to first);
      assert (first decreases to first.body);
      SelectorsAreFresh(first.body, c.Handler(first.binder), n);
      HandlersFresh(hs[1..], c, Lower(first.body, c.Handler(first.binder), n).n);
    }
  }

  // ----- the number in a selector's name

  /** The number a string of decimal digits stands for. */
  function NumberOf(s: string): int {
    if s == "" then 0 else 10 * NumberOf(s[..|s| - 1]) + (s[|s| - 1] as int - '0' as int)
  }

  /** Numbers are written in decimal, without leading zeros. */
  lemma {:induction false} DigitsDenote(n: nat)
    ensures var s := Digits(n);
            && NumberOf(s) == n && |s| > 0 && (s[0] == '0' ==> n == 0)
            && forall i :: 0 <= i < |s| ==> '0' <= s[i] <= '9'
  {
    var s := Digits(n);
    if n < 10 {
      assert s[..0] == "";
    } else {
      DigitsDenote(n / 10);
      assert s[..|s| - 1] == Digits(n / 10);
    }
  }

  /** Cases with different numbers have different names to start from. */
  lemma CaseNamesDiffer(m: nat, n: nat)
    ensures CaseName(m) == CaseName(n) ==> m == n
  {
    DigitsDenote(m);
    DigitsDenote(n);
    var prefix := |"tp2cc_case_"|;
    assert CaseName(m)[prefix..] == Digits(m) && CaseName(n)[prefix..] == Digits(n);
  }
}
