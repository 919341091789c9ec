/** What single statements do, told by the values their expressions have. */
module StatementLaws {
  import opened Wrappers
  import opened Carriers
  import opened Pascal

  /** A variable reads as it was last set, one never set as zero, and setting one leaves the others alone. */
  lemma StoreReads(st: Store, x: string, y: string, v: int)
    ensures st.Set(x, v).Get(x) == v
    ensures y != x ==> st.Set(x, v).Get(y) == st.Get(y)
    ensures st.Set(x, v).result == st.result
    ensures Store(map[], 0).Get(x) == 0
  {
  }

  /** A condition other than zero runs the first branch, zero the second if there is one. */
  lemma ConditionDecides(w: World, s: Stmt, h: Option<Exc>, st: Store, fuel: nat, n: int, st1: Store)
    requires s.If? && s.cond(st) == Value(Num(n), st1)
    ensures n > 0 || n < 0 ==> Run(w, s, h, st, fuel) == Run(w, s.thn, h, st1, fuel)
    ensures n == 0 ==> Run(w, s, h, st, fuel) == if s.els.Some? then Run(w, s.els.value, h, st1, fuel) else Done(st1)
  {
  }

  /** An arm lists a number as itself or between the ends of a range, both included. */
  predicate Lists(a: Arm, n: int) {
    Single(n) in a.labels || exists l :: l in a.labels && l.Range? && l.lo <= n <= l.hi
  }

  /** The first arm that lists the selector's value runs; if none does, the else part. */
  lemma SelectorDecides(w: World, s: Stmt, h: Option<Exc>, st: Store, fuel: nat, n: int, st1: Store, k: nat)
    requires s.Case? && s.e(st) == Value(Num(n), st1)
    requires k <= |s.arms| && (k < |s.arms| ==> Lists(s.arms[k], n))
    requires forall i :: 0 <= i < k ==> !Lists(s.arms[i], n)
    ensures Run(w, s, h, st, fuel) ==
            if k < |s.arms| then Run(w, s.arms[k].body, h, st1, fuel)
            else if s.els.Some? then Run(w, s.els.value, h, st1, fuel) else Done(st1)
  {
    forall i | 0 <= i < |s.arms| ensures ArmMatches(s.arms[i], n) <==> Lists(s.arms[i], n) {
      ListsIsMatches(s.arms[i], n);
    }
    assert FirstArm(s.arms, n) == k;
  }

  lemma ListsIsMatches(a: Arm, n: int)
    ensures ArmMatches(a, n) <==> Lists(a, n)
  {
    if l :| l in a.labels && l.Range? && l.lo <= n <= l.hi { assert LabelMatches(l, n); }
    if Single(n) in a.labels { assert LabelMatches(Single(n), n); }
    if l :| l in a.labels && LabelMatches(l, n) {
      match l
      case Single(m) => assert Single(n) in a.labels;
      case Range(_, _) =>
    }
  }

  /** A loop over a set runs for the members the set has. */
  lemma SetLoopTakesMembers(w: World, s: Stmt, h: Option<Exc>, st: Store, fuel: nat, members: set<int>, st1: Store)
    requires s.ForInSet? && s.lo <= s.hi && InRange(s.car, s.lo) && InRange(s.car, s.hi)
    requires s.e(st) == Value(Members(members), st1)
    ensures Run(w, s, h, st, fuel) == RunSet(w, s.x, members, s.lo, s.hi, s.body, h, st1, fuel)
  {
  }

  /** A raise throws the object it names; without one it throws again what is being handled. */
  lemma RaiseThrows(w: World, e: Expr, h: Option<Exc>, st: Store, fuel: nat, raised: Exc, st1: Store)
    requires e(st) == Value(Obj(raised), st1)
    ensures Run(w, Raise(e), h, st, fuel) == Raised(raised, st1)
    ensures Run(w, Reraise, Some(raised), st, fuel) == Raised(raised, st)
  {
  }

  /**
   * After any end of the protected part the finally part runs once. If it completes, the protected
   * part's end goes on with the variables the finally part left; otherwise its own end does.
   */
  lemma FinallyRuns(w: World, s: Stmt, h: Option<Exc>, st: Store, fuel: nat)
    requires s.TryFinally? && !w.strict && RunSeq(w, s.stmts, h, st, fuel).Ended()
    ensures var o := RunSeq(w, s.stmts, h, st, fuel);
            var f := RunSeq(w, s.fin, h, o.st, fuel);
            var all := Run(w, s, h, st, fuel);
            && (!f.Done? ==> all == f)
            && (f.Done? ==> all == match o
                                   case Done(_) => Done(f.st)
                                   case Broke(_) => Broke(f.st)
                                   case Continued(_) => Continued(f.st)
                                   case Exited(_) => Exited(f.st)
                                   case Raised(e, _) => Raised(e, f.st))
  {
    hide RunSeq;
  }

  /** A strict run departs at a finally part exactly if that jumps, raises, or writes the result after an exit. */
  lemma FinallyDepartsIff(w: World, s: Stmt, h: Option<Exc>, st: Store, fuel: nat)
    requires s.TryFinally? && w.strict && RunSeq(w, s.stmts, h, st, fuel).Ended()
    requires RunSeq(w, s.fin, h, RunSeq(w, s.stmts, h, st, fuel).st, fuel).Ended()
    ensures var o := RunSeq(w, s.stmts, h, st, fuel);
            var f := RunSeq(w, s.fin, h, o.st, fuel);
            Run(w, s, h, st, fuel).Outside? <==>
              (match f
               case Done(after) => o.Exited? && after.result != o.st.result
               case _ => true)
  {
    hide RunSeq;
  }

  /** Some handler takes an object of this class. */
  predicate Due(w: World, hs: seq<Handler>, e: Exc) {
    exists i :: 0 <= i < |hs| && (hs[i].cls.None? || w.isa(e.cls, hs[i].cls.value))
  }

  /**
   * A strict run departs where a handler is due for an object that is no exception. Where none is due
   * the else part runs, and without one the object goes on, unless the try has no handlers at all.
   */
  lemma HandlersDepart(w: World, s: Stmt, h: Option<Exc>, st: Store, fuel: nat)
    requires s.TryExcept? && RunSeq(w, s.stmts, h, st, fuel).Raised?
    ensures var o := RunSeq(w, s.stmts, h, st, fuel);
            var all := Run(w, s, h, st, fuel);
            && (Due(w, s.handlers, o.e) && w.strict && !o.e.asException ==> all == Outside)
            && (!Due(w, s.handlers, o.e) ==>
                  all == if s.els.Some? then Run(w, s.els.value, Some(o.e), o.st, fuel)
                         else if s.handlers == [] then Done(o.st) else o)
  {
    hide RunSeq;
    var e := RunSeq(w, s.stmts, h, st, fuel).e;
    var k := FirstHandler(w.isa, s.handlers, e);
    if i :| 0 <= i < |s.handlers| && (s.handlers[i].cls.None? || w.isa(e.cls, s.handlers[i].cls.value)) {
      assert HandlerMatches(w.isa, s.handlers[i], e);
    }
    if k < |s.handlers| { assert HandlerMatches(w.isa, s.handlers[k], e); }
  }
}
