/**
  The preservation theorem for statements and routines, the loops it covers, and the exact places where
  the generated code departs from Pascal.
 */
module Theorems {
  import opened Wrappers
  import opened Carriers
  import opened Pascal
  import opened Cxx
  import opened Lowering
  import opened Simulation
  import opened Preservation
  import opened Strictness
  import opened Iteration
  import opened Departures

  /** The strict run says where the translation departs; everywhere else the generated code does what
      Pascal says, and it runs out of fuel exactly when the Pascal statement does. */
  lemma LoweringPreserves(w: World, s: Stmt, c: Context, n: Counters, h: Option<Exc>, st: Store, tmp: Temps,
                          fuel: nat)
    requires !w.strict && Numbered(c, n)
    requires !Run(Strict(w), s, h, st, fuel).Outside? && !Run(w, s, h, st, fuel).Undefined?
    ensures ExecBlock(w.isa, Lower(s, c, n).code, h, State(st, tmp), fuel) == Image(Run(w, s, h, st, fuel), c, tmp)
  {
    hide Run, ExecBlock, Lower, Image;
    StrictConfirms(w, s, h, st, fuel);
    Preserve(Strict(w), s, c, n, h, st, tmp, fuel);
  }

  /** Statements whose finally parts are silent and whose handlers can be offered nothing but exceptions
      are translated faithfully on every run that keeps Pascal's own rules. */
  lemma ProperPreserved(w: World, s: Stmt, c: Context, n: Counters, h: Option<Exc>, st: Store, tmp: Temps, fuel: nat)
    requires !w.strict && Numbered(c, n) && Proper(s) && !Run(w, s, h, st, fuel).Undefined?
    ensures ExecBlock(w.isa, Lower(s, c, n).code, h, State(st, tmp), fuel) == Image(Run(w, s, h, st, fuel), c, tmp)
  {
    hide Run, ExecBlock, Lower, Image, Proper;
    ProperNeverDeparts(Strict(w), s, h, st, fuel);
    LoweringPreserves(w, s, c, n, h, st, tmp, fuel);
  }

  /** In particular sequences, assignments, branches, loops, break, continue, exit and raise: without try
      there is no condition on expressions at all. */
  lemma StructuredPreserved(w: World, s: Stmt, c: Context, n: Counters, h: Option<Exc>, st: Store, tmp: Temps,
                            fuel: nat)
    requires !w.strict && Numbered(c, n) && TryFree(s) && !Run(w, s, h, st, fuel).Undefined?
    ensures ExecBlock(w.isa, Lower(s, c, n).code, h, State(st, tmp), fuel) == Image(Run(w, s, h, st, fuel), c, tmp)
  {
    hide Run, ExecBlock, Lower, Image;
    TryFreeIsProper(s, Demand(false, false, false, false));
    ProperPreserved(w, s, c, n, h, st, tmp, fuel);
  }

  // ----- routines

  datatype CallResult =
    | Returned(v: int, vars: map<string, int>)
    | Escaped(e: Exc, vars: map<string, int>)
    | OutOfFuel
    | NotACall

  /** A Pascal function's value is what its result slot holds when the routine ends. */
  function PascalCall(w: World, body: Stmt, st: Store, fuel: nat): CallResult {
    match Run(w, body, None, st, fuel)
    case Done(st1) => Returned(st1.result, st1.vars)
    case Exited(st1) => Returned(st1.result, st1.vars)
    case Raised(e, st1) => Escaped(e, st1.vars)
    case Timeout => OutOfFuel
    case _ => NotACall
  }

  /** The generated function: its body's code, then the return of the result slot. */
  function CxxCall(isa: (nat, nat) -> bool, code: Code, st: Store, fuel: nat): CallResult {
    match ExecBlock(isa, code + [TReturn], None, State(st, map[]), fuel)
    case Returns(v, s) => Returned(v, s.st.vars)
    case Throws(e, s) => Escaped(e, s.st.vars)
    case TTimeout => OutOfFuel
    case _ => NotACall
  }

  /** Calling the generated function gives the Pascal function's value, variables and exceptions. */
  lemma FunctionPreserved(w: World, body: Stmt, scope: set<string>, n: Counters, st: Store, fuel: nat)
    requires !w.strict
    requires !Run(Strict(w), body, None, st, fuel).Outside? && !Run(w, body, None, st, fuel).Undefined?
    ensures CxxCall(w.isa, Lower(body, Context([], 0, scope), n).code, st, fuel) == PascalCall(w, body, st, fuel)
  {
    hide Run, Exec, ExecBlock, Resume, Lower;
    var c := Context([], 0, scope);
    var code, s := Lower(body, c, n).code, State(st, map[]);
    LoweringPreserves(w, body, c, n, None, st, map[], fuel);
    ExecAppend(w.isa, code, [TReturn], None, s, fuel);
    ResumeReturn(w.isa, ExecBlock(w.isa, code, None, s, fuel), fuel);
  }

  /** A routine with a proper body needs no further condition. */
  lemma RoutinePreserved(w: World, body: Stmt, scope: set<string>, n: Counters, st: Store, fuel: nat)
    requires !w.strict && Proper(body) && !Run(w, body, None, st, fuel).Undefined?
    ensures CxxCall(w.isa, Lower(body, Context([], 0, scope), n).code, st, fuel) == PascalCall(w, body, st, fuel)
  {
    hide Run, ExecBlock, Lower, Proper, CxxCall, PascalCall;
    ProperNeverDeparts(Strict(w), body, None, st, fuel);
    FunctionPreserved(w, body, scope, n, st, fuel);
  }

  lemma ResumeReturn(isa: (nat, nat) -> bool, o: TOut, fuel: nat)
    ensures Resume(isa, o, [TReturn], None, fuel) == if o.Falls? then Returns(o.s.st.result, o.s) else o
  {
    if o.Falls? {
      ExecOne(isa, TReturn, None, o.s, fuel);
    } else if o.Goes? {
      NotAt1(TReturn, o.l);
      GotoLost(isa, o.l, o.s, [TReturn], None, fuel);
    }
  }

  // ----- for loops

  /** The generated `for` runs its body's meaning once for each value between the bounds, in order. */
  lemma ForLoopVisits(w: World, s: Stmt, c: Context, n: Counters, h: Option<Exc>, st: Store, tmp: Temps, fuel: nat,
                      more: nat)
    requires !w.strict && Numbered(c, n) && s.For?
    requires s.from(st).Value? && s.to(s.from(st).st).Value?
    requires var first, last := AsNum(s.from(st).v), AsNum(s.to(s.from(st).st).v);
             var st2 := s.to(s.from(st).st).st;
             var xs := Values(first, last, s.downto);
             && (xs != [] ==> InRange(s.car, first) && InRange(s.car, last))
             && more >= fuel + |xs|
             && Legal(RunEach(w, s.x, xs, true, s.body, h, st2, fuel))
             && !RunEach(w, s.x, xs, true, s.body, h, st2, fuel).Timeout?
    requires !Run(Strict(w), s, h, st, more).Outside?
    ensures var first, last := AsNum(s.from(st).v), AsNum(s.to(s.from(st).st).v);
            var st2 := s.to(s.from(st).st).st;
            ExecBlock(w.isa, Lower(s, c, n).code, h, State(st, tmp), more) ==
            Image(RunEach(w, s.x, Values(first, last, s.downto), true, s.body, h, st2, fuel), c, tmp)
  {
    var first, last := AsNum(s.from(st).v), AsNum(s.to(s.from(st).st).v);
    var st2 := s.to(s.from(st).st).st;
    var xs := Values(first, last, s.downto);
    RunForStmt(w, s, h, st, more);
    if xs != [] {
      ForVisits(w, s.x, first, last, s.downto, s.body, h, st2, fuel, more);
    }
    LoweringPreserves(w, s, c, n, h, st, tmp, more);
  }

  lemma RunForStmt(w: World, s: Stmt, h: Option<Exc>, st: Store, fuel: nat)
    requires s.For? && s.from(st).Value? && s.to(s.from(st).st).Value?
    ensures Run(w, s, h, st, fuel) ==
            AfterBounds(w, s, AsNum(s.from(st).v), AsNum(s.to(s.from(st).st).v), h, s.to(s.from(st).st).st, fuel)
  {
  }

  /** The generated set for-in runs its body's meaning once for each member of the set between the
      bounds of its element type, in ascending order. */
  lemma SetLoopVisits(w: World, s: Stmt, c: Context, n: Counters, h: Option<Exc>, st: Store, tmp: Temps, fuel: nat,
                      more: nat)
    requires !w.strict && Numbered(c, n) && s.ForInSet? && s.e(st).Value?
    requires s.lo <= s.hi && InRange(s.car, s.lo) && InRange(s.car, s.hi)
    requires var xs := MembersBetween(AsSet(s.e(st).v), s.lo, s.hi);
             var each := RunEach(w, s.x, xs, false, s.body, h, s.e(st).st, fuel);
             more >= fuel + (s.hi - s.lo + 1) && Legal(each) && !each.Timeout?
    requires !Run(Strict(w), s, h, st, more).Outside?
    ensures var xs := MembersBetween(AsSet(s.e(st).v), s.lo, s.hi);
            ExecBlock(w.isa, Lower(s, c, n).code, h, State(st, tmp), more) ==
            Image(RunEach(w, s.x, xs, false, s.body, h, s.e(st).st, fuel), c, tmp)
  {
    hide Lower, ExecBlock, RunEach, MembersBetween;
    SetVisits(w, s.x, AsSet(s.e(st).v), s.lo, s.hi, s.body, h, s.e(st).st, fuel, more);
    LoweringPreserves(w, s, c, n, h, st, tmp, more);
  }

  /** For proper statements nothing has to be known about the run. */
  lemma ProperForVisits(w: World, s: Stmt, c: Context, n: Counters, h: Option<Exc>, st: Store, tmp: Temps, fuel: nat,
                        more: nat)
    requires !w.strict && Numbered(c, n) && s.For? && Proper(s)
    requires s.from(st).Value? && s.to(s.from(st).st).Value?
    requires var first, last := AsNum(s.from(st).v), AsNum(s.to(s.from(st).st).v);
             var xs := Values(first, last, s.downto);
             var each := RunEach(w, s.x, xs, true, s.body, h, s.to(s.from(st).st).st, fuel);
             && (xs != [] ==> InRange(s.car, first) && InRange(s.car, last))
             && more >= fuel + |xs| && Legal(each) && !each.Timeout?
    ensures var first, last := AsNum(s.from(st).v), AsNum(s.to(s.from(st).st).v);
            ExecBlock(w.isa, Lower(s, c, n).code, h, State(st, tmp), more) ==
            Image(RunEach(w, s.x, Values(first, last, s.downto), true, s.body, h, s.to(s.from(st).st).st, fuel), c, tmp)
  {
    hide Run, RunEach, ExecBlock, Lower, Image, Proper, Values;
    ProperNeverDeparts(Strict(w), s, h, st, more);
    ForLoopVisits(w, s, c, n, h, st, tmp, fuel, more);
  }

  lemma ProperSetVisits(w: World, s: Stmt, c: Context, n: Counters, h: Option<Exc>, st: Store, tmp: Temps, fuel: nat,
                        more: nat)
    requires !w.strict && Numbered(c, n) && s.ForInSet? && Proper(s) && s.e(st).Value?
    requires s.lo <= s.hi && InRange(s.car, s.lo) && InRange(s.car, s.hi)
    requires var xs := MembersBetween(AsSet(s.e(st).v), s.lo, s.hi);
             var each := RunEach(w, s.x, xs, false, s.body, h, s.e(st).st, fuel);
             more >= fuel + (s.hi - s.lo + 1) && Legal(each) && !each.Timeout?
    ensures var xs := MembersBetween(AsSet(s.e(st).v), s.lo, s.hi);
            ExecBlock(w.isa, Lower(s, c, n).code, h, State(st, tmp), more) ==
            Image(RunEach(w, s.x, xs, false, s.body, h, s.e(st).st, fuel), c, tmp)
  {
    hide Run, RunEach, ExecBlock, Lower, Image, Proper, MembersBetween;
    ProperNeverDeparts(Strict(w), s, h, st, more);
    SetLoopVisits(w, s, c, n, h, st, tmp, fuel, more);
  }

  /** A proper `for`, counting or over a set, whose body ends from every store, ends in the generated
      code too, unless it breaks Pascal's own rules. */
  lemma GeneratedLoopEnds(w: World, s: Stmt, c: Context, n: Counters, h: Option<Exc>, st: Store, tmp: Temps)
    requires !w.strict && Numbered(c, n) && Proper(s) && (s.For? || s.ForInSet?)
    requires forall st1: Store :: Ends(w, s.body, h, st1)
    ensures exists fuel: nat :: BothEnd(w, s, c, n, h, st, tmp, fuel)
  {
    hide Run, ExecBlock, Lower;
    LoopEnds(w, s, h, st);
    var fuel: nat :| !Run(w, s, h, st, fuel).Timeout?;
    if !Run(w, s, h, st, fuel).Undefined? { ProperPreserved(w, s, c, n, h, st, tmp, fuel); }
    assert BothEnd(w, s, c, n, h, st, tmp, fuel);
  }

  ghost predicate BothEnd(w: World, s: Stmt, c: Context, n: Counters, h: Option<Exc>, st: Store, tmp: Temps,
                          fuel: nat) {
    && !Run(w, s, h, st, fuel).Timeout?
    && (Run(w, s, h, st, fuel).Undefined? || !ExecBlock(w.isa, Lower(s, c, n).code, h, State(st, tmp), fuel).TTimeout?)
  }

  // ----- where the translation departs

  /** The finally part, ending with `f`, lets the generated code end as Pascal says after `o`. */
  predicate KeepsEnding(o: Outcome, f: Outcome)
    requires o.Ended()
  {
    || f.Timeout?
    || (f.Done? && (o.Exited? ==> f.st.result == o.st.result))
    || (f.Exited? && o.Exited? && f.st.result == o.st.result)
  }

  /** A try-finally whose parts are themselves translated faithfully behaves as Pascal says if and only
      if the finally part never ends, or completes and, after an exit of the protected part, leaves the
      result slot as it was, or exits with the result the protected part had already exited with. */
  lemma FinallyExact(w: World, stmts: seq<Stmt>, fin: seq<Stmt>, c: Context, n: Counters, h: Option<Exc>, st: Store,
                     tmp: Temps, fuel: nat)
    requires !w.strict && Numbered(c, n)
    requires Legal(RunSeq(Strict(w), stmts, h, st, fuel)) && RunSeq(Strict(w), stmts, h, st, fuel).Ended()
    requires Legal(RunSeq(Strict(w), fin, h, RunSeq(Strict(w), stmts, h, st, fuel).st, fuel))
    ensures var o := RunSeq(Strict(w), stmts, h, st, fuel);
            var f := RunSeq(Strict(w), fin, h, o.st, fuel);
            var s := TryFinally(stmts, fin);
            ExecBlock(w.isa, Lower(s, c, n).code, h, State(st, tmp), fuel) == Image(Run(w, s, h, st, fuel), c, tmp)
            <==> KeepsEnding(o, f)
  {
    hide Run, RunSeq, Exec, ExecBlock, Resume, Lower, LowerSeq, Image;
    var v, s := Strict(w), TryFinally(stmts, fin);
    var o := RunSeq(v, stmts, h, st, fuel);
    var f := RunSeq(v, fin, h, o.st, fuel);
    var n' := n.(tries := n.tries + 1);
    var n1 := LowerSeq(fin, c, n').n;
    StrictConfirmsSeq(w, stmts, h, st, fuel);
    StrictConfirmsSeq(w, fin, h, o.st, fuel);
    CounterGrowsSeq(fin, c, n');
    PreserveSeq(v, stmts, c, n1, h, st, tmp, fuel);
    PreserveSeq(v, fin, c, n', h, o.st, tmp, fuel);
    FinallyParts(w, stmts, fin, c, n, h, State(st, tmp), fuel);
    ImageState(o, c, tmp);
    GuardExact(w, o, f, c, tmp);
  }

  lemma FinallyParts(w: World, stmts: seq<Stmt>, fin: seq<Stmt>, c: Context, n: Counters, h: Option<Exc>, s: State,
                     fuel: nat)
    ensures var r1 := LowerSeq(fin, c, n.(tries := n.tries + 1));
            var r2 := LowerSeq(stmts, c, r1.n);
            var o := RunSeq(w, stmts, h, s.st, fuel);
            var x := ExecBlock(w.isa, r2.code, h, s, fuel);
            && Run(w, TryFinally(stmts, fin), h, s.st, fuel) ==
               (if !o.Ended() then o else AfterFinally(w, o, RunSeq(w, fin, h, o.st, fuel)))
            && Lower(TryFinally(stmts, fin), c, n).code == [TGuard(r1.code, r2.code)]
            && ExecBlock(w.isa, [TGuard(r1.code, r2.code)], h, s, fuel) ==
               (if !x.HasState() then x else AfterGuard(x, ExecBlock(w.isa, r1.code, h, x.s, fuel)))
  {
    hide Exec, ExecBlock, Resume, RunSeq, LowerSeq;
    var r1 := LowerSeq(fin, c, n.(tries := n.tries + 1));
    GuardStep(w.isa, r1.code, LowerSeq(stmts, c, r1.n).code, h, s, fuel);
  }

  lemma GuardExact(w: World, o: Outcome, f: Outcome, c: Context, tmp: Temps)
    requires !w.strict && o.Ended() && Legal(f)
    ensures Image(o, c, tmp).HasState()
    ensures AfterGuard(Image(o, c, tmp), Image(f, c, tmp)) == Image(AfterFinally(w, o, f), c, tmp)
            <==> KeepsEnding(o, f)
  {
  }

  /** The smallest routine that shows it: try exit(1) finally result := 2 end. */
  function Constant(v: int): Expr {
    (st: Store) => Value(Num(v), st)
  }

  lemma FinallyWritesResult(w: World, st: Store, n: Counters)
    requires !w.strict
    ensures var body := TryFinally([Exit(Some(Constant(1)))], [AssignResult(Constant(2))]);
            && PascalCall(w, body, st, 0) == Returned(2, st.vars)
            && CxxCall(w.isa, Lower(body, Context([], 0, {}), n).code, st, 0) == Returned(1, st.vars)
  {
    hide Run, RunSeq, ExecBlock, Resume, Lower, LowerSeq, Exec;
    var exit, write := Exit(Some(Constant(1))), AssignResult(Constant(2));
    var c, c1, s := Context([], 0, {}), n.(tries := n.tries + 1), State(st, map[]);
    var st1 := st.(result := 1);
    OneStatement(w, exit, c, c1, None, st, 0);
    OneStatement(w, write, c, c1, None, st1, 0);
    SetsResult(w, 2, c, c1, st1);
    ExitsWith(w, 1, c, c1, st);
    var code1, code2 := Lower(exit, c, c1).code, Lower(write, c, c1).code;
    FinallyParts(w, [exit], [write], c, n, None, s, 0);
    TailReturn(w.isa, TGuard(code2, code1), s, 0);
  }

  lemma SetsResult(w: World, v: int, c: Context, n: Counters, st: Store)
    ensures var s := AssignResult(Constant(v));
            && Run(w, s, None, st, 0) == Done(st.(result := v))
            && Lower(s, c, n).n == n
            && ExecBlock(w.isa, Lower(s, c, n).code, None, State(st, map[]), 0) == Falls(State(st.(result := v), map[]))
  {
    ExecOne(w.isa, TSetResult(Src(Constant(v))), None, State(st, map[]), 0);
  }

  lemma ExitsWith(w: World, v: int, c: Context, n: Counters, st: Store)
    ensures var s := Exit(Some(Constant(v)));
            && Run(w, s, None, st, 0) == Exited(st.(result := v))
            && ExecBlock(w.isa, Lower(s, c, n).code, None, State(st, map[]), 0) ==
               Returns(v, State(st.(result := v), map[]))
  {
    hide ExecBlock, Lower;
    ExitRuns(w.isa, Some(Constant(v)), c, n, None, st, map[], 0);
  }

  lemma OneStatement(w: World, s: Stmt, c: Context, n: Counters, h: Option<Exc>, st: Store, fuel: nat)
    ensures RunSeq(w, [s], h, st, fuel) == Run(w, s, h, st, fuel)
    ensures LowerSeq([s], c, n) == Lower(s, c, n)
  {
    assert [s][1..] == [];
    assert Lower(s, c, n).code + [] == Lower(s, c, n).code;
  }

  lemma TailReturn(isa: (nat, nat) -> bool, t: TStmt, s: State, fuel: nat)
    ensures var o := ExecBlock(isa, [t], None, s, fuel);
            o.Returns? ==> ExecBlock(isa, [t] + [TReturn], None, s, fuel) == o
  {
    hide Exec, ExecBlock, Resume;
    ExecAppend(isa, [t], [TReturn], None, s, fuel);
    ResumeReturn(isa, ExecBlock(isa, [t], None, s, fuel), fuel);
  }

  /** A finally part that raises: `try finally raise o end` raises in Pascal and terminates the generated program. */
  lemma FinallyRaiseTerminates(w: World, e: Exc, c: Context, n: Counters, st: Store, tmp: Temps)
    requires !w.strict
    ensures var s := TryFinally([Empty], [Raise(RaiseObject(e))]);
            && Run(w, s, None, st, 0) == Raised(e, st)
            && ExecBlock(w.isa, Lower(s, c, n).code, None, State(st, tmp), 0) == Terminated
  {
    hide Exec, ExecBlock, Resume, Lower, LowerSeq;
    var raising := Raise(RaiseObject(e));
    var n' := n.(tries := n.tries + 1);
    FinallyParts(w, [Empty], [raising], c, n, None, State(st, tmp), 0);
    OneStatement(w, raising, c, n', None, st, 0);
    OneStatement(w, Empty, c, LowerSeq([raising], c, n').n, None, st, 0);
    LowerOfLeaf(raising, c, n');
    LowerOfLeaf(Empty, c, LowerSeq([raising], c, n').n);
    Throwing(w.isa, e, State(st, tmp));
  }

  lemma Throwing(isa: (nat, nat) -> bool, e: Exc, s: State)
    ensures ExecBlock(isa, [TThrow(Src(RaiseObject(e)))], None, s, 0) == Throws(e, s)
    ensures ExecBlock(isa, [TEmpty], None, s, 0) == Falls(s)
  {
    ExecOne(isa, TThrow(Src(RaiseObject(e))), None, s, 0);
    ExecOne(isa, TEmpty, None, s, 0);
  }

  /** Where a raised object is taken up: a handler, the else part, or outside the statement. */
  datatype Place = HandlerPlace(k: nat) | ElsePlace | Escapes

  function PascalPlace(isa: (nat, nat) -> bool, s: Stmt, e: Exc): (p: Place)
    requires s.TryExcept?
    ensures p.HandlerPlace? ==> p.k < |s.handlers|
  {
    var k := FirstHandler(isa, s.handlers, e);
    if k < |s.handlers| then HandlerPlace(k) else if s.els.Some? || s.handlers == [] then ElsePlace else Escapes
  }

  /** The generated code offers its handlers exceptions only. */
  function CodePlace(isa: (nat, nat) -> bool, s: Stmt, e: Exc): (p: Place)
    requires s.TryExcept?
    ensures p.HandlerPlace? ==> p.k < |s.handlers|
  {
    if e.asException || s.handlers == [] then PascalPlace(isa, s, e)
    else if s.els.Some? then ElsePlace
    else Escapes
  }

  /** How the statement ends if `e` is taken up at `p`. */
  function AtPlace(w: World, s: Stmt, p: Place, e: Exc, st: Store, fuel: nat): Outcome
    requires s.TryExcept? && (p.HandlerPlace? ==> p.k < |s.handlers|)
  {
    match p
    case HandlerPlace(k) =>
      Unbind(s.handlers[k].binder, st, Run(w, s.handlers[k].body, Some(e), Bind(s.handlers[k].binder, e, st), fuel))
    case ElsePlace => if s.els.Some? then Run(w, s.els.value, Some(e), st, fuel) else Done(st)
    case Escapes => Raised(e, st)
  }

  lemma PascalReaches(w: World, s: Stmt, h: Option<Exc>, st: Store, fuel: nat)
    requires !w.strict && s.TryExcept? && RunSeq(w, s.stmts, h, st, fuel).Raised?
    ensures var o := RunSeq(w, s.stmts, h, st, fuel);
            Run(w, s, h, st, fuel) == AtPlace(w, s, PascalPlace(w.isa, s, o.e), o.e, o.st, fuel)
  {
  }

  lemma CodeReaches(w: World, s: Stmt, c: Context, n: Counters, h: Option<Exc>, st: Store, tmp: Temps, fuel: nat)
    requires w.strict && Numbered(c, n) && s.TryExcept? && RunSeq(w, s.stmts, h, st, fuel).Raised?
    ensures var o := RunSeq(w, s.stmts, h, st, fuel);
            Matches(AtPlace(w, s, CodePlace(w.isa, s, o.e), o.e, o.st, fuel),
                    ExecBlock(w.isa, Lower(s, c, n).code, h, State(st, tmp), fuel), c, tmp)
  {
    hide Run, RunSeq, Exec, ExecBlock, Resume, Lower, LowerSeq, LowerElse, LowerHandlers, TryRest, TryChain, CatchCode;
    var o := RunSeq(w, s.stmts, h, st, fuel);
    if o.e.asException || s.handlers == [] {
      RunTry(w, s, h, st, fuel);
      Preserve(w, s, c, n, h, st, tmp, fuel);
    } else {
      var n' := n.(tries := n.tries + 1);
      PreserveSeq(w, s.stmts, c, n', h, st, tmp, fuel);
      CounterGrowsSeq(s.stmts, c, n');
      ExecTry(w.isa, s, c, n, h, State(st, tmp), fuel);
      PreserveCatchAll(w, s, c, LowerSeq(s.stmts, c, n').n, o.e, o.st, tmp, fuel);
    }
  }

  /** Pascal and the generated code take up a raised object at the same place if and only if it is an
      exception or no handler is due for it; each then does what stands at its place. */
  lemma DispatchExact(w: World, s: Stmt, c: Context, n: Counters, h: Option<Exc>, st: Store, tmp: Temps, fuel: nat)
    requires !w.strict && Numbered(c, n) && s.TryExcept? && RunSeq(Strict(w), s.stmts, h, st, fuel).Raised?
    ensures var o := RunSeq(Strict(w), s.stmts, h, st, fuel);
            var pascal, code := PascalPlace(w.isa, s, o.e), CodePlace(w.isa, s, o.e);
            && Run(w, s, h, st, fuel) == AtPlace(w, s, pascal, o.e, o.st, fuel)
            && Matches(AtPlace(Strict(w), s, code, o.e, o.st, fuel),
                       ExecBlock(w.isa, Lower(s, c, n).code, h, State(st, tmp), fuel), c, tmp)
            && (pascal == code <==> o.e.asException || FirstHandler(w.isa, s.handlers, o.e) == |s.handlers|)
  {
    hide Run, RunSeq, Exec, ExecBlock, Lower, Image, AtPlace, Matches;
    StrictConfirmsSeq(w, s.stmts, h, st, fuel);
    PascalReaches(w, s, h, st, fuel);
    CodeReaches(Strict(w), s, c, n, h, st, tmp, fuel);
  }

  /** A thrown object that is no exception passes every handler of a try statement without an else part,
      also handlers that Pascal would run. */
  lemma ForeignExceptionEscapes(w: World, s: Stmt, c: Context, n: Counters, h: Option<Exc>, st: Store, tmp: Temps,
                                fuel: nat)
    requires Numbered(c, n) && s.TryExcept? && s.handlers != [] && s.els.None?
    requires var o := RunSeq(Strict(w), s.stmts, h, st, fuel); o.Raised? && !o.e.asException
    ensures var o := RunSeq(Strict(w), s.stmts, h, st, fuel);
            ExecBlock(w.isa, Lower(s, c, n).code, h, State(st, tmp), fuel) == Throws(o.e, State(o.st, tmp))
  {
    hide RunSeq, Exec, ExecBlock, Lower;
    CodeReaches(Strict(w), s, c, n, h, st, tmp, fuel);
  }

  function RaiseObject(e: Exc): Expr {
    (st: Store) => Value(Obj(e), st)
  }

  /** With an else part it is that part which runs: `try raise o except on any do result := 1 else
      result := 2 end`, with `o` no exception, gives 1 in Pascal and 2 in the generated code. */
  lemma ForeignTakesElse(w: World, e: Exc, c: Context, n: Counters, st: Store, tmp: Temps)
    requires !w.strict && Numbered(c, n) && !e.asException
    ensures var s := TryExcept([Raise(RaiseObject(e))], [Handler(None, None, AssignResult(Constant(1)))],
                               Some(AssignResult(Constant(2))));
            && Run(w, s, None, st, 0) == Done(st.(result := 1))
            && ExecBlock(w.isa, Lower(s, c, n).code, None, State(st, tmp), 0) == Falls(State(st.(result := 2), tmp))
  {
    var one, two := AssignResult(Constant(1)), AssignResult(Constant(2));
    var raising, handler := Raise(RaiseObject(e)), Handler(None, None, one);
    var s := TryExcept([raising], [handler], Some(two));
    assert [raising][1..] == [];
    assert RunSeq(Strict(w), [raising], None, st, 0) == Raised(e, st);
    assert FirstHandler(w.isa, [handler], e) == 0;
    assert Run(w, one, Some(e), st, 0) == Done(st.(result := 1));
    assert Run(Strict(w), two, Some(e), st, 0) == Done(st.(result := 2));
    hide Run, RunSeq, ExecBlock, Lower;
    DispatchExact(w, s, c, n, None, st, tmp, 0);
  }
}
