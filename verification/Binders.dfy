/** What a handler's variable and a local of the generated code leave behind: nothing under their own name. */
module Binders {
  import opened Wrappers
  import opened Pascal
  import opened Cxx

  /** The variable `x` has the same value in both, or none in both. */
  predicate SameVariable(x: string, a: Store, b: Store) {
    (x in a.vars <==> x in b.vars) && (x in a.vars ==> a.vars[x] == b.vars[x])
  }

  /** The exception that a try statement hands to its handler `k`. */
  predicate TakenBy(w: World, s: Stmt, h: Option<Exc>, st: Store, fuel: nat, k: nat) {
    && s.TryExcept? && k < |s.handlers|
    && var o := RunSeq(w, s.stmts, h, st, fuel);
       && o.Raised? && (w.strict ==> o.e.asException)
       && (s.handlers[k].cls.Some? ==> w.isa(o.e.cls, s.handlers[k].cls.value))
       && forall i :: 0 <= i < k ==> s.handlers[i].cls.Some? && !w.isa(o.e.cls, s.handlers[i].cls.value)
  }

  /** The first handler with a matching class is the one the semantics runs. */
  lemma TakenIsFirst(w: World, s: Stmt, h: Option<Exc>, st: Store, fuel: nat, k: nat)
    requires TakenBy(w, s, h, st, fuel, k)
    ensures FirstHandler(w.isa, s.handlers, RunSeq(w, s.stmts, h, st, fuel).e) == k
  {
    hide RunSeq;
    var e := RunSeq(w, s.stmts, h, st, fuel).e;
    assert HandlerMatches(w.isa, s.handlers[k], e);
    forall i | 0 <= i < k ensures !HandlerMatches(w.isa, s.handlers[i], e) {
    }
  }

  /**
   * A handler's variable holds the exception in the handler's body and is gone after it: a variable of
   * that name outside has its value from the moment of the raise, and every other variable, the result
   * slot and the way of ending are as the body left them.
   */
  lemma HandlerVariable(w: World, s: Stmt, h: Option<Exc>, st: Store, fuel: nat, k: nat, x: string)
    requires TakenBy(w, s, h, st, fuel, k) && s.handlers[k].binder == Some(x)
    ensures var o := RunSeq(w, s.stmts, h, st, fuel);
            var body := Run(w, s.handlers[k].body, Some(o.e), o.st.(vars := o.st.vars[x := o.e.id]), fuel);
            var all := Run(w, s, h, st, fuel);
            && (!body.Ended() ==> all == body)
            && (body.Ended() ==>
                  && all.Ended() && all == body.(st := all.st)
                  && SameVariable(x, all.st, o.st)
                  && all.st.result == body.st.result
                  && forall y :: y != x ==> SameVariable(y, all.st, body.st))
  {
    TakenIsFirst(w, s, h, st, fuel, k);
    hide RunSeq;
  }

  /** Without a variable the handler's body is the whole story. */
  lemma HandlerWithoutVariable(w: World, s: Stmt, h: Option<Exc>, st: Store, fuel: nat, k: nat)
    requires TakenBy(w, s, h, st, fuel, k) && s.handlers[k].binder.None?
    ensures var o := RunSeq(w, s.stmts, h, st, fuel);
            Run(w, s, h, st, fuel) == Run(w, s.handlers[k].body, Some(o.e), o.st, fuel)
  {
    TakenIsFirst(w, s, h, st, fuel, k);
    hide RunSeq;
  }

  /** The same for a local variable of a block in the generated code. */
  lemma LocalVariable(isa: (nat, nat) -> bool, x: string, p: Pure, code: Code, h: Option<Exc>, s: State, fuel: nat)
    ensures var inner := State(s.st.(vars := s.st.vars[x := AsNum(Look(isa, p, s))]), s.tmp);
            var body := ExecBlock(isa, code, h, inner, fuel);
            var all := Exec(isa, TLocal(x, p, code), h, s, fuel);
            && (!body.HasState() ==> all == body)
            && (body.HasState() ==>
                  && all.HasState() && all == body.(s := all.s) && all.s.tmp == body.s.tmp
                  && SameVariable(x, all.s.st, s.st)
                  && all.s.st.result == body.s.st.result
                  && forall y :: y != x ==> SameVariable(y, all.s.st, body.s.st))
  {
    hide ExecBlock, Look;
  }

  /** A temporary of a block: outside the block it is what it was before, and no other temporary is touched. */
  lemma LocalTemporary(isa: (nat, nat) -> bool, t: Temp, e: TExpr, code: Code, h: Option<Exc>, s: State, fuel: nat)
    requires EvalT(isa, e, s).TValue?
    ensures var s1 := EvalT(isa, e, s).s;
            var body := ExecBlock(isa, code, h, State(s1.st, s1.tmp[t := EvalT(isa, e, s).v]), fuel);
            var all := Exec(isa, TLet(t, e, code), h, s, fuel);
            && (!body.HasState() ==> all == body)
            && (body.HasState() ==>
                  && all.HasState() && all == body.(s := all.s) && all.s.st == body.s.st
                  && (t in all.s.tmp <==> t in s1.tmp) && (t in s1.tmp ==> all.s.tmp[t] == s1.tmp[t])
                  && all.s.tmp - {t} == body.s.tmp - {t})
  {
    hide ExecBlock;
  }

  /** An assignment changes its variable to the value of its expression and nothing else but by side effect. */
  lemma AssignmentSets(w: World, x: string, e: Expr, h: Option<Exc>, st: Store, fuel: nat)
    requires e(st).Value? && e(st).v.Num?
    ensures var o := Run(w, Assign(x, e), h, st, fuel);
            && o.Done? && x in o.st.vars && o.st.vars[x] == e(st).v.n
            && o.st.result == e(st).st.result
            && forall y :: y != x ==> SameVariable(y, o.st, e(st).st)
  {
  }

  /** The smallest input: a handler's variable hides a variable of the same name and gives it back. */
  lemma HiddenVariableReturns(w: World, e: Exc, x: string, v: int)
    requires e.asException
    ensures var s := TryExcept([Raise((st: Store) => Value(Obj(e), st))], [Handler(None, Some(x), Empty)], None);
            Run(w, s, None, Store(map[x := v], 0), 0) == Done(Store(map[x := v], 0))
  {
    var raising := Raise((st: Store) => Value(Obj(e), st));
    var s, st := TryExcept([raising], [Handler(None, Some(x), Empty)], None), Store(map[x := v], 0);
    assert [raising][1..] == [];
    assert RunSeq(w, [raising], None, st, 0) == Raised(e, st);
    HandlerVariable(w, s, None, st, 0, 0, x);
    var all := Run(w, s, None, st, 0);
    assert Run(w, Empty, Some(e), st.(vars := st.vars[x := e.id]), 0).Done?;
    assert all.st.vars == map[x := v];
  }
}
