/**
  Statements that cannot meet a departure of the translation, told from their text alone: those without
  try, and those whose finally parts are silent and whose handlers can only be offered exceptions.
 */
module Departures {
  import opened Wrappers
  import opened Pascal

  /** What is asked of a statement: to be silent (complete, or jump within its loops, without touching the
      result), and to raise nothing but exceptions; `known` if what is being handled is an exception. */
  datatype Demand = Demand(silent: bool, inLoop: bool, native: bool, known: bool)

  const SILENT := Demand(true, false, false, false)

  /** The expression always has a value and leaves the result slot alone. */
  ghost predicate Silent(e: Expr) {
    forall st: Store :: e(st).Value? && e(st).st.result == st.result
  }

  /** The expression raises nothing but exceptions. */
  ghost predicate Native(e: Expr) {
    forall st: Store :: e(st).Raises? ==> e(st).e.asException
  }

  /** The object of a raise statement is always an exception. */
  ghost predicate YieldsException(e: Expr) {
    forall st: Store :: e(st).Value? ==> AsExc(e(st).v).asException
  }

  ghost predicate MeetsExpr(e: Expr, d: Demand) {
    (d.silent ==> Silent(e)) && (d.native ==> Native(e))
  }

  /** The demand on the protected part of a try statement: its handlers must be offered exceptions only. */
  function Protected(d: Demand, handlers: seq<Handler>): Demand {
    d.(native := d.native || handlers != [])
  }

  /** The demand on its handlers and its else part. */
  function Handling(d: Demand, handlers: seq<Handler>): Demand {
    d.(known := d.native || handlers != [])
  }

  ghost predicate Meets(s: Stmt, d: Demand)
    decreases s, 1
  {
    match s
    case Empty => true
    case Assign(_, e) => MeetsExpr(e, d)
    case AssignResult(e) => !d.silent && MeetsExpr(e, d)
    case Eval(e) => MeetsExpr(e, d)
    case Compound(stmts) => MeetsSeq(stmts, d)
    case If(cond, thn, els) => MeetsExpr(cond, d) && Meets(thn, d) && (els.Some? ==> Meets(els.value, d))
    case While(cond, body) => MeetsExpr(cond, d) && Meets(body, d.(inLoop := true))
    case Repeat(stmts, cond) => MeetsExpr(cond, d) && MeetsSeq(stmts, d.(inLoop := true))
    case For(_, _, from, to, _, body) => MeetsExpr(from, d) && MeetsExpr(to, d) && Meets(body, d.(inLoop := true))
    case ForInSet(_, _, _, _, e, body) => MeetsExpr(e, d) && Meets(body, d.(inLoop := true))
    case Case(e, arms, els) => MeetsExpr(e, d) && MeetsArms(arms, d) && (els.Some? ==> Meets(els.value, d))
    case Break => d.silent ==> d.inLoop
    case Continue => d.silent ==> d.inLoop
    case Exit(value) => !d.silent && (value.Some? ==> MeetsExpr(value.value, d))
    case Raise(e) => !d.silent && MeetsExpr(e, d) && (d.native ==> YieldsException(e))
    case Reraise => !d.silent && (d.native ==> d.known)
    case TryFinally(stmts, fin) => MeetsSeq(stmts, d) && MeetsSeq(fin, SILENT)
    case TryExcept(stmts, handlers, els) =>
      && MeetsSeq(stmts, Protected(d, handlers))
      && MeetsHandlers(handlers, Handling(d, handlers))
      && (els.Some? ==> Meets(els.value, Handling(d, handlers)))
  }

  ghost predicate MeetsSeq(ss: seq<Stmt>, d: Demand)
    decreases ss, 0
  {
    ss != [] ==> Meets(ss[0], d) && MeetsSeq(ss[1..], d)
  }

  ghost predicate MeetsArms(arms: seq<Arm>, d: Demand)
    decreases arms, 0
  {
    arms != [] ==> Meets(arms[0].body, d) && MeetsArms(arms[1..], d)
  }

  ghost predicate MeetsHandlers(hs: seq<Handler>, d: Demand)
    decreases hs, 0
  {
    hs != [] ==>
      var first := hs[0];
      assert (hs decreases to first);
      assert (first decreases to first.body);
      Meets(first.body, d) && MeetsHandlers(hs[1..], d)
  }

  /** Nothing is asked but that finally parts be silent and that handlers be offered exceptions only. */
  ghost predicate Proper(s: Stmt) {
    Meets(s, Demand(false, false, false, false))
  }

  // ----- without try

  predicate TryFree(s: Stmt)
    decreases s, 1
  {
    match s
    case Compound(stmts) => TryFreeSeq(stmts)
    case If(_, thn, els) => TryFree(thn) && (els.Some? ==> TryFree(els.value))
    case While(_, body) => TryFree(body)
    case Repeat(stmts, _) => TryFreeSeq(stmts)
    case For(_, _, _, _, _, body) => TryFree(body)
    case ForInSet(_, _, _, _, _, body) => TryFree(body)
    case Case(_, arms, els) => TryFreeArms(arms) && (els.Some? ==> TryFree(els.value))
    case TryFinally(_, _) => false
    case TryExcept(_, _, _) => false
    case _ => true
  }

  predicate TryFreeSeq(ss: seq<Stmt>)
    decreases ss, 0
  {
    ss != [] ==> TryFree(ss[0]) && TryFreeSeq(ss[1..])
  }

  predicate TryFreeArms(arms: seq<Arm>)
    decreases arms, 0
  {
    arms != [] ==> TryFree(arms[0].body) && TryFreeArms(arms[1..])
  }

  /** A statement without try is proper, whatever its expressions do. */
  lemma {:induction false} TryFreeIsProper(s: Stmt, d: Demand)
    requires TryFree(s) && !d.silent && !d.native
    ensures Meets(s, d)
    decreases s, 1
  {
    match s
    case Compound(stmts) => TryFreeSeqIsProper(stmts, d);
    case If(_, thn, els) =>
      TryFreeIsProper(thn, d);
      if els.Some? { TryFreeIsProper(els.value, d); }
    case While(_, body) => TryFreeIsProper(body, d.(inLoop := true));
    case Repeat(stmts, _) => TryFreeSeqIsProper(stmts, d.(inLoop := true));
    case For(_, _, _, _, _, body) => TryFreeIsProper(body, d.(inLoop := true));
    case ForInSet(_, _, _, _, _, body) => TryFreeIsProper(body, d.(inLoop := true));
    case Case(_, arms, els) =>
      TryFreeArmsAreProper(arms, d);
      if els.Some? { TryFreeIsProper(els.value, d); }
    case _ =>
  }

  lemma {:induction false} TryFreeSeqIsProper(ss: seq<Stmt>, d: Demand)
    requires TryFreeSeq(ss) && !d.silent && !d.native
    ensures MeetsSeq(ss, d)
    decreases ss, 0
  {
    if ss != [] {
      TryFreeIsProper(ss[0], d);
      TryFreeSeqIsProper(ss[1..], d);
    }
  }

  lemma {:induction false} TryFreeArmsAreProper(arms: seq<Arm>, d: Demand)
    requires TryFreeArms(arms) && !d.silent && !d.native
    ensures MeetsArms(arms, d)
    decreases arms, 0
  {
    if arms != [] {
      TryFreeIsProper(arms[0].body, d);
      TryFreeArmsAreProper(arms[1..], d);
    }
  }

  // ----- what meeting a demand means

  /** An end that the demand allows, of a run that started with `result` in the result slot. */
  predicate Allowed(o: Outcome, result: int, d: Demand) {
    && !o.Outside?
    && (d.silent && o.Ended() ==> (o.Done? || (d.inLoop && (o.Broke? || o.Continued?))) && o.st.result == result)
    && (d.native && o.Raised? ==> o.e.asException)
  }

  /** What is being handled is an exception where that is known. */
  predicate Handled(h: Option<Exc>, d: Demand) {
    d.known && h.Some? ==> h.value.asException
  }

  lemma {:induction false} MeetsArm(arms: seq<Arm>, k: nat, d: Demand)
    requires MeetsArms(arms, d) && k < |arms|
    ensures Meets(arms[k].body, d)
  {
    if k > 0 { MeetsArm(arms[1..], k - 1, d); }
  }

  lemma {:induction false} MeetsHandler(hs: seq<Handler>, k: nat, d: Demand)
    requires MeetsHandlers(hs, d) && k < |hs|
    ensures Meets(hs[k].body, d)
  {
    if k > 0 { MeetsHandler(hs[1..], k - 1, d); }
  }

  /** A statement that meets a demand ends as the demand allows, and never outside the translation. */
  lemma {:induction false} MeetingIsAllowed(w: World, s: Stmt, d: Demand, h: Option<Exc>, st: Store, fuel: nat)
    requires Meets(s, d) && Handled(h, d)
    ensures Allowed(Run(w, s, h, st, fuel), st.result, d)
    decreases fuel, s, 4
  {
    match s
    case Compound(stmts) => SeqIsAllowed(w, stmts, d, h, st, fuel);
    case If(_, _, _) => BranchIsAllowed(w, s, d, h, st, fuel);
    case Case(_, _, _) => BranchIsAllowed(w, s, d, h, st, fuel);
    case While(_, _) => WhileIsAllowed(w, s, d, h, st, fuel);
    case Repeat(_, _) => RepeatIsAllowed(w, s, d, h, st, fuel);
    case For(x, car, from, to, downto, body) =>
      if from(st).Value? && to(from(st).st).Value? {
        ForIsAllowed(w, x, AsNum(from(st).v), AsNum(to(from(st).st).v), downto, body, d, h, to(from(st).st).st, fuel);
      }
    case ForInSet(x, car, lo, hi, e, body) =>
      if e(st).Value? { SetIsAllowed(w, x, AsSet(e(st).v), lo, hi, body, d, h, e(st).st, fuel); }
    case TryFinally(_, _) => FinallyIsAllowed(w, s, d, h, st, fuel);
    case TryExcept(_, _, _) => ExceptIsAllowed(w, s, d, h, st, fuel);
    case _ => LeafIsAllowed(w, s, d, h, st, fuel);
  }

  lemma LeafIsAllowed(w: World, s: Stmt, d: Demand, h: Option<Exc>, st: Store, fuel: nat)
    requires Leaf(s) && Meets(s, d) && Handled(h, d)
    ensures Allowed(Run(w, s, h, st, fuel), st.result, d)
  {
    RunOfLeaf(w, s, h, st, fuel);
    hide Run;
  }

  lemma {:induction false} BranchIsAllowed(w: World, s: Stmt, d: Demand, h: Option<Exc>, st: Store, fuel: nat)
    requires Meets(s, d) && Handled(h, d) && (s.If? || s.Case?)
    ensures Allowed(Run(w, s, h, st, fuel), st.result, d)
    decreases fuel, s, 3
  {
    if s.If? {
      if s.cond(st).Value? {
        MeetingIsAllowed(w, s.thn, d, h, s.cond(st).st, fuel);
        if s.els.Some? { MeetingIsAllowed(w, s.els.value, d, h, s.cond(st).st, fuel); }
      }
    } else if s.e(st).Value? {
      var k := FirstArm(s.arms, AsNum(s.e(st).v));
      if k < |s.arms| {
        MeetsArm(s.arms, k, d);
        MeetingIsAllowed(w, s.arms[k].body, d, h, s.e(st).st, fuel);
      } else if s.els.Some? {
        MeetingIsAllowed(w, s.els.value, d, h, s.e(st).st, fuel);
      }
    }
  }

  lemma {:induction false} WhileIsAllowed(w: World, s: Stmt, d: Demand, h: Option<Exc>, st: Store, fuel: nat)
    requires Meets(s, d) && Handled(h, d) && s.While?
    ensures Allowed(Run(w, s, h, st, fuel), st.result, d)
    decreases fuel, s, 3
  {
    if fuel > 0 {
      hide Run;
      RunWhileStep(w, s.cond, s.body, h, st, fuel);
      if s.cond(st).Value? {
        var st1 := s.cond(st).st;
        MeetingIsAllowed(w, s.body, d.(inLoop := true), h, st1, fuel);
        var o := Run(w, s.body, h, st1, fuel);
        if o.Done? || o.Continued? { MeetingIsAllowed(w, s, d, h, o.st, fuel - 1); }
      }
    }
  }

  lemma {:induction false} RepeatIsAllowed(w: World, s: Stmt, d: Demand, h: Option<Exc>, st: Store, fuel: nat)
    requires Meets(s, d) && Handled(h, d) && s.Repeat?
    ensures Allowed(Run(w, s, h, st, fuel), st.result, d)
    decreases fuel, s, 3
  {
    if fuel > 0 {
      SeqIsAllowed(w, s.stmts, d.(inLoop := true), h, st, fuel);
      var o := RunSeq(w, s.stmts, h, st, fuel);
      if (o.Done? || o.Continued?) && s.cond(o.st).Value? {
        MeetingIsAllowed(w, s, d, h, s.cond(o.st).st, fuel - 1);
      }
    }
  }

  lemma {:induction false} FinallyIsAllowed(w: World, s: Stmt, d: Demand, h: Option<Exc>, st: Store, fuel: nat)
    requires Meets(s, d) && Handled(h, d) && s.TryFinally?
    ensures Allowed(Run(w, s, h, st, fuel), st.result, d)
    decreases fuel, s, 3
  {
    SeqIsAllowed(w, s.stmts, d, h, st, fuel);
    var o := RunSeq(w, s.stmts, h, st, fuel);
    if o.Ended() { SeqIsAllowed(w, s.fin, SILENT, h, o.st, fuel); }
  }

  lemma {:induction false} ExceptIsAllowed(w: World, s: Stmt, d: Demand, h: Option<Exc>, st: Store, fuel: nat)
    requires Meets(s, d) && Handled(h, d) && s.TryExcept?
    ensures Allowed(Run(w, s, h, st, fuel), st.result, d)
    decreases fuel, s, 3
  {
    SeqIsAllowed(w, s.stmts, Protected(d, s.handlers), h, st, fuel);
    var d' := Handling(d, s.handlers);
    var o := RunSeq(w, s.stmts, h, st, fuel);
    if o.Raised? {
      var k := FirstHandler(w.isa, s.handlers, o.e);
      if k < |s.handlers| {
        var hd := s.handlers[k];
        MeetsHandler(s.handlers, k, d');
        MeetingIsAllowed(w, hd.body, d', Some(o.e), Bind(hd.binder, o.e, o.st), fuel);
      } else if s.els.Some? {
        MeetingIsAllowed(w, s.els.value, d', Some(o.e), o.st, fuel);
      }
    }
  }

  lemma {:induction false} SeqIsAllowed(w: World, ss: seq<Stmt>, d: Demand, h: Option<Exc>, st: Store, fuel: nat)
    requires MeetsSeq(ss, d) && Handled(h, d)
    ensures Allowed(RunSeq(w, ss, h, st, fuel), st.result, d)
    decreases fuel, ss, 0
  {
    if ss != [] {
      MeetingIsAllowed(w, ss[0], d, h, st, fuel);
      var o := Run(w, ss[0], h, st, fuel);
      if o.Done? { SeqIsAllowed(w, ss[1..], d, h, o.st, fuel); }
    }
  }

  lemma {:induction false} ForIsAllowed(w: World, x: string, cur: int, last: int, downto: bool, body: Stmt, d: Demand,
                                        h: Option<Exc>, st: Store, fuel: nat)
    requires Meets(body, d.(inLoop := true)) && Handled(h, d)
    ensures Allowed(RunFor(w, x, cur, last, downto, body, h, st, fuel), st.result, d)
    decreases fuel, body, 5
  {
    if fuel > 0 {
      MeetingIsAllowed(w, body, d.(inLoop := true), h, st.Set(x, cur), fuel);
      var o := Run(w, body, h, st.Set(x, cur), fuel);
      if o.Done? || o.Continued? {
        ForIsAllowed(w, x, Next(cur, downto), last, downto, body, d, h, o.st, fuel - 1);
      }
    }
  }

  lemma {:induction false} SetIsAllowed(w: World, x: string, s: set<int>, cur: int, hi: int, body: Stmt, d: Demand,
                                        h: Option<Exc>, st: Store, fuel: nat)
    requires Meets(body, d.(inLoop := true)) && Handled(h, d)
    ensures Allowed(RunSet(w, x, s, cur, hi, body, h, st, fuel), st.result, d)
    decreases fuel, body, 5
  {
    if fuel > 0 {
      MeetingIsAllowed(w, body, d.(inLoop := true), h, st.Set(x, cur), fuel);
      var o := if cur in s then Run(w, body, h, st.Set(x, cur), fuel) else Done(st);
      if o.Done? || o.Continued? {
        SetIsAllowed(w, x, s, cur + 1, hi, body, d, h, o.st, fuel - 1);
      }
    }
  }

  /** Proper statements never leave what the translation covers. */
  lemma ProperNeverDeparts(w: World, s: Stmt, h: Option<Exc>, st: Store, fuel: nat)
    requires Proper(s)
    ensures !Run(w, s, h, st, fuel).Outside?
  {
    MeetingIsAllowed(w, s, Demand(false, false, false, false), h, st, fuel);
  }
}
