/** The if-chains that a case statement and the handlers of a try statement become. */
module Branches {
  import opened Wrappers
  import opened Pascal
  import opened Cxx
  import opened Lowering
  import opened Simulation

  // ----- case

  lemma LabelConditionHolds(isa: (nat, nat) -> bool, sel: Temp, l: CaseLabel, s: State)
    requires sel in s.tmp
    ensures Truth(Look(isa, LabelCondition(Ref(sel), l), s)) <==> LabelMatches(l, AsNum(s.tmp[sel]))
  {
    assert Look(isa, Ref(sel), s) == s.tmp[sel];
    if l.Range? {
      assert Look(isa, Const(l.lo), s) == Num(l.lo) && Look(isa, Const(l.hi), s) == Num(l.hi);
      assert Look(isa, Ge(Ref(sel), Const(l.lo)), s) == Bool(AsNum(s.tmp[sel]) >= l.lo);
      assert Look(isa, Le(Ref(sel), Const(l.hi)), s) == Bool(AsNum(s.tmp[sel]) <= l.hi);
    } else {
      assert Look(isa, Const(l.n), s) == Num(l.n);
    }
  }

  /** The disjunction emitted for an arm holds exactly for the numbers its labels list. */
  lemma {:induction false} ArmConditionHolds(isa: (nat, nat) -> bool, sel: Temp, labels: seq<CaseLabel>, s: State)
    requires sel in s.tmp
    ensures Truth(Look(isa, ArmCondition(Ref(sel), labels), s)) <==>
            exists l :: l in labels && LabelMatches(l, AsNum(s.tmp[sel]))
  {
    var n := AsNum(s.tmp[sel]);
    if labels == [] {
    } else {
      var last := labels[|labels| - 1];
      LabelConditionHolds(isa, sel, last, s);
      if |labels| > 1 {
        var rest := labels[..|labels| - 1];
        ArmConditionHolds(isa, sel, rest, s);
        assert labels == rest + [last];
      } else {
        assert labels == [last];
      }
    }
  }

  /** The chain runs the code of the first arm that lists the selector's value. */
  lemma {:induction false} CaseChainRuns(isa: (nat, nat) -> bool, sel: Temp, arms: seq<Arm>, codes: seq<Code>,
                                         els: Code, h: Option<Exc>, s: State, fuel: nat)
    requires sel in s.tmp && |arms| == |codes|
    ensures var k := FirstArm(arms, AsNum(s.tmp[sel]));
            ExecBlock(isa, CaseChain(Ref(sel), arms, codes, els), h, s, fuel) ==
            ExecBlock(isa, if k < |arms| then codes[k] else els, h, s, fuel)
  {
    if arms != [] {
      var cond := ArmCondition(Ref(sel), arms[0].labels);
      var rest := CaseChain(Ref(sel), arms[1..], codes[1..], els);
      ArmConditionHolds(isa, sel, arms[0].labels, s);
      ExecIf(isa, cond, codes[0], rest, h, s, fuel);
      ExecOne(isa, TIf(P(cond), codes[0], rest), h, s, fuel);
      CaseChainRuns(isa, sel, arms[1..], codes[1..], els, h, s, fuel);
    }
  }

  /** The code of arm `k` is its body's lowering, with some later state of the counters. */
  lemma {:induction false} ArmCode(arms: seq<Arm>, c: Context, n: Counters, k: nat) returns (nk: Counters)
    requires k < |arms|
    ensures LowerArms(arms, c, n).0[k] == Lower(arms[k].body, c, nk).code
    ensures n.loops <= nk.loops
  {
    if k == 0 {
      nk := n;
    } else {
      CounterGrows(arms[0].body, c, n);
      nk := ArmCode(arms[1..], c, Lower(arms[0].body, c, n).n, k - 1);
    }
  }

  // ----- try

  lemma EmptyBlock(isa: (nat, nat) -> bool, h: Option<Exc>, s: State, fuel: nat)
    ensures ExecBlock(isa, [], h, s, fuel) == Falls(s)
  {
  }

  /** The dynamic_cast chain runs the code of the first handler that matches the exception. */
  lemma {:induction false} HandlerChainRuns(isa: (nat, nat) -> bool, n: nat, hs: seq<Handler>, codes: seq<Code>,
                                            els: Code, e: Exc, h: Option<Exc>, s: State, fuel: nat)
    requires |hs| == |codes| && Caught(n) in s.tmp && s.tmp[Caught(n)] == Obj(e)
    ensures var k := FirstHandler(isa, hs, e);
            ExecBlock(isa, HandlerChain(n, hs, codes, els), h, s, fuel) ==
            ExecBlock(isa, if k < |hs| then HandlerCode(n, hs[k].binder, codes[k]) else els, h, s, fuel)
  {
    if hs != [] {
      var cond := HandlerCondition(Ref(Caught(n)), hs[0].cls);
      var code := HandlerCode(n, hs[0].binder, codes[0]);
      var rest := HandlerChain(n, hs[1..], codes[1..], els);
      assert Look(isa, Ref(Caught(n)), s) == Obj(e);
      assert Truth(Look(isa, cond, s)) <==> HandlerMatches(isa, hs[0], e);
      ExecIf(isa, cond, code, rest, h, s, fuel);
      ExecOne(isa, TIf(P(cond), code, rest), h, s, fuel);
      HandlerChainRuns(isa, n, hs[1..], codes[1..], els, e, h, s, fuel);
    }
  }

  lemma {:induction false} HandlerBodyCode(hs: seq<Handler>, c: Context, n: Counters, k: nat) returns (nk: Counters)
    requires k < |hs|
    ensures LowerHandlers(hs, c, n).0[k] == Lower(hs[k].body, c.Handler(hs[k].binder), nk).code
    ensures n.loops <= nk.loops
  {
    if k == 0 {
      nk := n;
    } else {
      CounterGrows(hs[0].body, c.Handler(hs[0].binder), n);
      nk := HandlerBodyCode(hs[1..], c, Lower(hs[0].body, c.Handler(hs[0].binder), n).n, k - 1);
    }
  }

  /** A handler's block records that the exception is handled and declares the binder around the body. */
  lemma HandlerCodeRuns(isa: (nat, nat) -> bool, n: nat, binder: Option<string>, body: Code, e: Exc, h: Option<Exc>,
                        s: State, fuel: nat)
    requires Caught(n) in s.tmp && s.tmp[Caught(n)] == Obj(e)
    ensures var s1 := State(Bind(binder, e, s.st), s.tmp[HandledFlag(n) := Num(1)]);
            var o := ExecBlock(isa, body, h, s1, fuel);
            ExecBlock(isa, HandlerCode(n, binder, body), h, s, fuel) ==
            if binder.Some? then o.DropVar(binder.value, s.st.vars) else o
  {
    var mark := TSetTemp(HandledFlag(n), Const(1));
    var rest := HandlerCode(n, binder, body)[1..];
    var s1 := State(s.st, s.tmp[HandledFlag(n) := Num(1)]);
    assert Look(isa, Const(1), s) == Num(1);
    assert Exec(isa, mark, h, s, fuel) == Falls(s1);
    assert HandlerCode(n, binder, body) == [mark] + rest;
    if binder.Some? {
      var local := TLocal(binder.value, Ref(Caught(n)), body);
      assert rest == [local];
      assert Look(isa, Ref(Caught(n)), s1) == Obj(e);
      ExecOne(isa, local, h, s1, fuel);
    } else {
      assert rest == body;
    }
  }

  lemma ImageUnbind(binder: Option<string>, outer: Store, o: Outcome, c: Context, tmp: Temps)
    requires Legal(o)
    ensures Image(Unbind(binder, outer, o), c, tmp) ==
            if binder.Some? then Image(o, c, tmp).DropVar(binder.value, outer.vars) else Image(o, c, tmp)
  {
  }

  /** The rethrow behind the chain: it happens exactly if no block of the chain was entered. */
  lemma RethrowUnlessHandled(isa: (nat, nat) -> bool, n: nat, o: TOut, e: Exc, fuel: nat)
    requires o.Falls? ==> HandledFlag(n) in o.s.tmp
    ensures Resume(isa, o, [TIf(P(Not(Ref(HandledFlag(n)))), [TRethrow], [])], Some(e), fuel) ==
            if o.Falls? && !Truth(o.s.tmp[HandledFlag(n)]) then Throws(e, o.s) else o
  {
    var last := TIf(P(Not(Ref(HandledFlag(n)))), [TRethrow], []);
    if o.Falls? {
      var s := o.s;
      assert Look(isa, Ref(HandledFlag(n)), s) == s.tmp[HandledFlag(n)];
      assert Look(isa, Not(Ref(HandledFlag(n))), s) == Bool(!Truth(s.tmp[HandledFlag(n)]));
      ExecIf(isa, Not(Ref(HandledFlag(n))), [TRethrow], [], Some(e), s, fuel);
      ExecOne(isa, TRethrow, Some(e), s, fuel);
      ExecOne(isa, last, Some(e), s, fuel);
      assert ExecBlock(isa, [], Some(e), s, fuel) == Falls(s);
    } else if o.Goes? {
      NotAt1(last, o.l);
      GotoLost(isa, o.l, o.s, [last], Some(e), fuel);
    }
  }

  /** A catch block around its if-chain: the flag is dropped, and an exception that entered no block of
      the chain is thrown again. */
  lemma CatchBlock(isa: (nat, nat) -> bool, n: nat, chain: Code, e: Exc, st: Store, tmp: Temps, o: Outcome,
                   entered: bool, c: Context, fuel: nat)
    requires var x := ExecBlock(isa, chain, Some(e), State(st, tmp[HandledFlag(n) := Num(0)]), fuel);
             if entered then x == Image(o, c, tmp[HandledFlag(n) := Num(1)])
             else x == Falls(State(st, tmp[HandledFlag(n) := Num(0)])) && o == Raised(e, st)
    ensures ExecBlock(isa, CatchCode(n, chain), Some(e), State(st, tmp), fuel) == Image(o, c, tmp)
  {
    var tmp0 := tmp[HandledFlag(n) := Num(0)];
    var last := [TIf(P(Not(Ref(HandledFlag(n)))), [TRethrow], [])];
    var x := ExecBlock(isa, chain, Some(e), State(st, tmp0), fuel);
    assert Look(isa, Const(0), State(st, tmp)) == Num(0);
    LetRuns(isa, HandledFlag(n), P(Const(0)), chain + last, Some(e), State(st, tmp), fuel);
    ExecAppend(isa, chain, last, Some(e), State(st, tmp0), fuel);
    RethrowUnlessHandled(isa, n, x, e, fuel);
    ImageDrop(o, c, HandledFlag(n), Num(0), tmp);
    ImageDrop(o, c, HandledFlag(n), Num(1), tmp);
  }
}
