/**
  The lowered `for` for bounds of any kind: what it visits when the first value lies outside the control
  variable's carrier, and exactly when it ends.
 */
module ForLoops {
  import opened Wrappers
  import opened Carriers
  import opened Pascal
  import opened Cxx
  import opened Lowering
  import opened Simulation
  import opened Preservation
  import opened Strictness
  import opened Iteration

  /** With its final value in the carrier the generated loop runs the body for each value of the walk to it. */
  lemma {:induction false} LoopWalks(w: World, x: string, car: Carrier, cur: int, last: int, downto: bool, body: Stmt,
                                     code: Code, c: Context, k: nat, h: Option<Exc>, st: Store, tmp: Temps, fuel: nat,
                                     more: nat)
    requires BodySimulates(w, body, code, c, k, h, more)
    requires ToBound in tmp && AsNum(tmp[ToBound]) == last && InRange(car, cur) && InRange(car, last)
    requires var xs := Walk(car, cur, last, downto);
             && more >= fuel + |xs|
             && Legal(RunEach(w, x, xs, true, body, h, st, fuel))
             && !RunEach(w, x, xs, true, body, h, st, fuel).Timeout?
    ensures CatchBreak(Exec(w.isa, ForLoop(k, x, car, downto, code), h, State(st.Set(x, cur), tmp), more), k) ==
            Image(RunEach(w, x, Walk(car, cur, last, downto), true, body, h, st, fuel), c, tmp)
    decreases Distance(car, cur, last, downto)
  {
    hide Run, Exec, BodySimulates, ForLoop, AsNum;
    var xs := Walk(car, cur, last, downto);
    ForLoopStep(w, x, car, cur, last, downto, body, code, c, k, h, st, tmp, more);
    MoreFuel(w, body, h, st.Set(x, cur), fuel, more);
    var o := Run(w, body, h, st.Set(x, cur), fuel);
    if (o.Done? || o.Continued?) && cur != last {
      StepCloser(car, cur, last, downto);
      var next := Wrap(car, Next(cur, downto));
      assert xs[1..] == Walk(car, next, last, downto);
      LessFuel(w, body, code, c, k, h, more);
      LoopWalks(w, x, car, next, last, downto, body, code, c, k, h, o.st, tmp, fuel, more - 1);
    } else if o.Done? || o.Continued? {
      assert xs[1..] == [];
    }
  }

  /** Both bounds have values, `st2` being the store after them. */
  predicate Bounded(s: Stmt, st: Store) {
    s.For? && s.from(st).Value? && s.to(s.from(st).st).Value?
  }

  function First(s: Stmt, st: Store): int
    requires Bounded(s, st)
  {
    AsNum(s.from(st).v)
  }

  function Last(s: Stmt, st: Store): int
    requires Bounded(s, st)
  {
    AsNum(s.to(s.from(st).st).v)
  }

  function Entry(s: Stmt, st: Store): Store
    requires Bounded(s, st)
  {
    s.to(s.from(st).st).st
  }

  /** There is nothing between the bounds. */
  predicate Closed(s: Stmt, st: Store)
    requires Bounded(s, st)
  {
    if s.downto then First(s, st) < Last(s, st) else Last(s, st) < First(s, st)
  }

  /** The temporaries inside the blocks of the two bounds. */
  function Inner(s: Stmt, st: Store, tmp: Temps): Temps
    requires Bounded(s, st)
  {
    tmp[FromBound := s.from(st).v][ToBound := s.to(s.from(st).st).v]
  }

  /** The lowered `for` is its loop, started at the first value as the carrier holds it, or nothing at all. */
  lemma LoweredFor(isa: (nat, nat) -> bool, s: Stmt, c: Context, n: Counters, h: Option<Exc>, st: Store, tmp: Temps,
                   fuel: nat)
    requires Bounded(s, st)
    ensures var k := n.loops + 1;
            var code := Lower(s.body, c.Loop(k), n.(loops := k)).code;
            var s2 := State(Entry(s, st).Set(s.x, Wrap(s.car, First(s, st))), Inner(s, st, tmp));
            var out := if Closed(s, st) then Falls(State(Entry(s, st), Inner(s, st, tmp)))
                       else CatchBreak(Exec(isa, ForLoop(k, s.x, s.car, s.downto, code), h, s2, fuel), k);
            ExecBlock(isa, Lower(s, c, n).code, h, State(st, tmp), fuel) ==
            out.Drop(ToBound, tmp[FromBound := s.from(st).v]).Drop(FromBound, tmp)
  {
    hide Exec, ExecBlock, Lower, ForLoop;
    LowerLoop(s, c, n);
    var k := n.loops + 1;
    var code := Lower(s.body, c.Loop(k), n.(loops := k)).code;
    var block := ForBlock(k, s.x, s.car, s.from, s.to, s.downto, code);
    LoopBlock(isa, block, k, h, State(st, tmp), fuel);
    ForBlockRuns(isa, s, code, k, h, st, tmp, fuel);
    GuardedForRuns(isa, s, code, k, h, State(Entry(s, st), Inner(s, st, tmp)), fuel);
    var x := Exec(isa, block.code[0].code[0], h, State(Entry(s, st), Inner(s, st, tmp)), fuel);
    CatchBreakDrop(x, k, ToBound, tmp[FromBound := s.from(st).v]);
    CatchBreakDrop(x.Drop(ToBound, tmp[FromBound := s.from(st).v]), k, FromBound, tmp);
  }

  /**
   * Whenever the final value is in the carrier, the generated `for` runs the body's meaning for each
   * value of the walk from the converted first value, which is the list of values between the bounds
   * exactly if the first value is in the carrier too.
   */
  lemma ForWalks(w: World, s: Stmt, c: Context, n: Counters, h: Option<Exc>, st: Store, tmp: Temps, fuel: nat,
                 more: nat)
    requires w.strict && Numbered(c, n) && Bounded(s, st) && !Closed(s, st) && InRange(s.car, Last(s, st))
    requires var xs := Walk(s.car, Wrap(s.car, First(s, st)), Last(s, st), s.downto);
             var each := RunEach(w, s.x, xs, true, s.body, h, Entry(s, st), fuel);
             more >= fuel + |xs| && Legal(each) && !each.Timeout?
    ensures var xs := Walk(s.car, Wrap(s.car, First(s, st)), Last(s, st), s.downto);
            && ExecBlock(w.isa, Lower(s, c, n).code, h, State(st, tmp), more) ==
               Image(RunEach(w, s.x, xs, true, s.body, h, Entry(s, st), fuel), c, tmp)
            && (xs == Values(First(s, st), Last(s, st), s.downto) <==> InRange(s.car, First(s, st)))
  {
    hide Run, RunEach, Exec, ExecBlock, Lower, ForLoop, Walk, BodySimulates, Image;
    var k := n.loops + 1;
    var code := Lower(s.body, c.Loop(k), n.(loops := k)).code;
    var first, last := First(s, st), Last(s, st);
    var xs := Walk(s.car, Wrap(s.car, first), last, s.downto);
    var each := RunEach(w, s.x, xs, true, s.body, h, Entry(s, st), fuel);
    PreserveBody(w, s.body, c, n, h, more);
    LoweredFor(w.isa, s, c, n, h, st, tmp, more);
    LoopWalks(w, s.x, s.car, Wrap(s.car, first), last, s.downto, s.body, code, c, k, h, Entry(s, st),
              Inner(s, st, tmp), fuel, more);
    ImageDrop(each, c, ToBound, s.to(s.from(st).st).v, tmp[FromBound := s.from(st).v]);
    ImageDrop(each, c, FromBound, s.from(st).v, tmp);
    WalkIsValuesIff(s.car, first, last, s.downto);
  }

  // ----- when it ends

  /** The body always completes, in time, and leaves the control variable alone. */
  ghost predicate Steady(w: World, x: string, body: Stmt, h: Option<Exc>) {
    forall st: Store :: SteadyFrom(w, x, body, h, st)
  }

  ghost predicate SteadyFrom(w: World, x: string, body: Stmt, h: Option<Exc>, st: Store) {
    exists f: nat ::
      var o := Run(w, body, h, st, f); (o.Done? || o.Continued?) && o.st.Get(x) == st.Get(x)
  }

  lemma SteadyAlways(w: World, x: string, body: Stmt, h: Option<Exc>, st: Store, fuel: nat)
    requires SteadyFrom(w, x, body, h, st)
    ensures var o := Run(w, body, h, st, fuel);
            o.Timeout? || ((o.Done? || o.Continued?) && o.st.Get(x) == st.Get(x))
  {
    hide Run;
    var f: nat :| var o := Run(w, body, h, st, f); (o.Done? || o.Continued?) && o.st.Get(x) == st.Get(x);
    if f <= fuel { MoreFuel(w, body, h, st, f, fuel); } else { MoreFuel(w, body, h, st, fuel, f); }
  }

  /** The empty statement is steady. */
  lemma EmptyIsSteady(w: World, x: string, h: Option<Exc>)
    ensures Steady(w, x, Empty, h)
  {
    forall st: Store ensures SteadyFrom(w, x, Empty, h, st) {
      assert Run(w, Empty, h, st, 0) == Done(st);
    }
  }

  /** Around a steady body a final value outside the carrier is never met: no fuel is enough. */
  lemma {:induction false} OutOfCarrierHangs(w: World, x: string, car: Carrier, cur: int, last: int, downto: bool,
                                             body: Stmt, code: Code, c: Context, k: nat, h: Option<Exc>, st: Store,
                                             tmp: Temps, fuel: nat)
    requires BodySimulates(w, body, code, c, k, h, fuel) && Steady(w, x, body, h)
    requires ToBound in tmp && AsNum(tmp[ToBound]) == last && InRange(car, cur) && !InRange(car, last)
    ensures Exec(w.isa, ForLoop(k, x, car, downto, code), h, State(st.Set(x, cur), tmp), fuel) == TTimeout
    decreases fuel
  {
    hide Run, BodySimulates, SteadyFrom, ForLoop, InRange, AsNum;
    if fuel > 0 {
      hide Exec;
      ForLoopStep(w, x, car, cur, last, downto, body, code, c, k, h, st, tmp, fuel);
      SteadyAlways(w, x, body, h, st.Set(x, cur), fuel);
      var o := Run(w, body, h, st.Set(x, cur), fuel);
      if !o.Timeout? {
        LessFuel(w, body, code, c, k, h, fuel);
        OutOfCarrierHangs(w, x, car, Wrap(car, Next(cur, downto)), last, downto, body, code, c, k, h,
                          o.st, tmp, fuel - 1);
      }
    } else {
      NoFuelNoLoop(w.isa, x, car, downto, code, k, h, State(st.Set(x, cur), tmp));
    }
  }

  lemma NoFuelNoLoop(isa: (nat, nat) -> bool, x: string, car: Carrier, downto: bool, code: Code, k: nat,
                     h: Option<Exc>, s: State)
    ensures Exec(isa, ForLoop(k, x, car, downto, code), h, s, 0) == TTimeout
  {
  }

  /** Around a steady body every walk is legal and ends. */
  lemma {:induction false} SteadyEach(w: World, x: string, xs: seq<int>, body: Stmt, h: Option<Exc>, st: Store,
                                      fuel: nat)
    requires Steady(w, x, body, h)
    ensures var o := RunEach(w, x, xs, true, body, h, st, fuel); o.Timeout? || o.Done?
    decreases xs
  {
    hide Run, SteadyFrom;
    if xs != [] {
      SteadyAlways(w, x, body, h, st.Set(x, xs[0]), fuel);
      var o := Run(w, body, h, st.Set(x, xs[0]), fuel);
      if !o.Timeout? { SteadyEach(w, x, xs[1..], body, h, o.st, fuel); }
    }
  }

  lemma SteadyEnds(w: World, x: string, body: Stmt, h: Option<Exc>)
    requires Steady(w, x, body, h)
    ensures forall st: Store :: Ends(w, body, h, st)
  {
    hide Run;
    forall st: Store ensures Ends(w, body, h, st) {
      assert SteadyFrom(w, x, body, h, st);
      var f: nat :| var o := Run(w, body, h, st, f); (o.Done? || o.Continued?) && o.st.Get(x) == st.Get(x);
    }
  }

  /** The lowered `for` ends, with some fuel. */
  ghost predicate CodeEnds(isa: (nat, nat) -> bool, code: Code, h: Option<Exc>, s: State) {
    exists f: nat :: !ExecBlock(isa, code, h, s, f).TTimeout?
  }

  /**
   * Around a body that always completes and leaves the control variable alone, the generated `for`
   * ends if and only if there is nothing between its bounds or its final value is in the carrier.
   */
  lemma ForEndsIff(w: World, s: Stmt, c: Context, n: Counters, h: Option<Exc>, st: Store, tmp: Temps)
    requires w.strict && Numbered(c, n) && Bounded(s, st) && Steady(w, s.x, s.body, h)
    ensures CodeEnds(w.isa, Lower(s, c, n).code, h, State(st, tmp)) <==> Closed(s, st) || InRange(s.car, Last(s, st))
  {
    hide Exec, ExecBlock, Lower, ForLoop, Steady, Run, RunEach, Walk, BodySimulates;
    var code := Lower(s, c, n).code;
    if Closed(s, st) {
      LoweredFor(w.isa, s, c, n, h, st, tmp, 0);
      assert !ExecBlock(w.isa, code, h, State(st, tmp), 0).TTimeout?;
    } else if InRange(s.car, Last(s, st)) {
      OpenForEnds(w, s, c, n, h, st, tmp);
    } else {
      var k := n.loops + 1;
      var body := Lower(s.body, c.Loop(k), n.(loops := k)).code;
      forall f: nat ensures ExecBlock(w.isa, code, h, State(st, tmp), f).TTimeout? {
        PreserveBody(w, s.body, c, n, h, f);
        LoweredFor(w.isa, s, c, n, h, st, tmp, f);
        OutOfCarrierHangs(w, s.x, s.car, Wrap(s.car, First(s, st)), Last(s, st), s.downto, s.body, body, c, k, h,
                          Entry(s, st), Inner(s, st, tmp), f);
      }
    }
  }

  lemma OpenForEnds(w: World, s: Stmt, c: Context, n: Counters, h: Option<Exc>, st: Store, tmp: Temps)
    requires w.strict && Numbered(c, n) && Bounded(s, st) && Steady(w, s.x, s.body, h)
    requires !Closed(s, st) && InRange(s.car, Last(s, st))
    ensures CodeEnds(w.isa, Lower(s, c, n).code, h, State(st, tmp))
  {
    hide Exec, ExecBlock, Lower, ForLoop, Steady, Run, RunEach, Walk;
    var xs := Walk(s.car, Wrap(s.car, First(s, st)), Last(s, st), s.downto);
    SteadyEnds(w, s.x, s.body, h);
    EachEnds(w, s.x, xs, true, s.body, h, Entry(s, st));
    var f: nat :| !RunEach(w, s.x, xs, true, s.body, h, Entry(s, st), f).Timeout?;
    SteadyEach(w, s.x, xs, s.body, h, Entry(s, st), f);
    ForWalks(w, s, c, n, h, st, tmp, f, f + |xs|);
    assert !ExecBlock(w.isa, Lower(s, c, n).code, h, State(st, tmp), f + |xs|).TTimeout?;
  }

  /** The case of an empty body, which is steady in every world. */
  lemma EmptyForEndsIff(w: World, s: Stmt, c: Context, n: Counters, h: Option<Exc>, st: Store, tmp: Temps)
    requires Numbered(c, n) && Bounded(s, st) && s.body == Empty
    ensures CodeEnds(w.isa, Lower(s, c, n).code, h, State(st, tmp)) <==> Closed(s, st) || InRange(s.car, Last(s, st))
  {
    hide Lower, Steady, CodeEnds;
    EmptyIsSteady(Strict(w), s.x, h);
    ForEndsIff(Strict(w), s, c, n, h, st, tmp);
  }
}
