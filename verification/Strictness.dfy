/** A strict run that meets no departure is a Pascal run, and a longer fuel does not change a run that ended. */
module Strictness {
  import opened Wrappers
  import opened Pascal

  function Strict(w: World): World {
    w.(strict := true)
  }

  /** `b` is what Pascal says wherever the strict outcome `a` is not a departure. */
  predicate Confirms(a: Outcome, b: Outcome) {
    !a.Outside? ==> a == b
  }

  lemma {:induction false} StrictConfirms(w: World, s: Stmt, h: Option<Exc>, st: Store, fuel: nat)
    requires !w.strict
    ensures Confirms(Run(Strict(w), s, h, st, fuel), Run(w, s, h, st, fuel))
    decreases fuel, s, 4
  {
    match s
    case Compound(stmts) => StrictConfirmsSeq(w, stmts, h, st, fuel);
    case If(_, _, _) => StrictConfirmsBranch(w, s, h, st, fuel);
    case Case(_, _, _) => StrictConfirmsBranch(w, s, h, st, fuel);
    case While(_, _) => StrictConfirmsLoop(w, s, h, st, fuel);
    case Repeat(_, _) => StrictConfirmsLoop(w, s, h, st, fuel);
    case For(x, car, from, to, downto, body) =>
      if from(st).Value? && to(from(st).st).Value? {
        var st2 := to(from(st).st).st;
        StrictConfirmsFor(w, x, AsNum(from(st).v), AsNum(to(from(st).st).v), downto, body, h, st2, fuel);
      }
    case ForInSet(x, car, lo, hi, e, body) =>
      if e(st).Value? {
        StrictConfirmsSet(w, x, AsSet(e(st).v), lo, hi, body, h, e(st).st, fuel);
      }
    case TryFinally(_, _) => StrictConfirmsTry(w, s, h, st, fuel);
    case TryExcept(_, _, _) => StrictConfirmsTry(w, s, h, st, fuel);
    case _ =>
  }

  lemma {:induction false} StrictConfirmsBranch(w: World, s: Stmt, h: Option<Exc>, st: Store, fuel: nat)
    requires !w.strict
    requires s.If? || s.Case?
    ensures Confirms(Run(Strict(w), s, h, st, fuel), Run(w, s, h, st, fuel))
    decreases fuel, s, 3
  {
    if s.If? {
      if s.cond(st).Value? {
        StrictConfirms(w, s.thn, h, s.cond(st).st, fuel);
        if s.els.Some? {
          StrictConfirms(w, s.els.value, h, s.cond(st).st, fuel);
        }
      }
    } else if s.e(st).Value? {
      var k := FirstArm(s.arms, AsNum(s.e(st).v));
      if k < |s.arms| {
        StrictConfirms(w, s.arms[k].body, h, s.e(st).st, fuel);
      } else if s.els.Some? {
        StrictConfirms(w, s.els.value, h, s.e(st).st, fuel);
      }
    }
  }

  lemma {:induction false} StrictConfirmsLoop(w: World, s: Stmt, h: Option<Exc>, st: Store, fuel: nat)
    requires !w.strict
    requires s.While? || s.Repeat?
    ensures Confirms(Run(Strict(w), s, h, st, fuel), Run(w, s, h, st, fuel))
    decreases fuel, s, 3
  {
    if fuel > 0 {
      if s.While? {
        if s.cond(st).Value? {
          StrictConfirms(w, s.body, h, s.cond(st).st, fuel);
          var o := Run(Strict(w), s.body, h, s.cond(st).st, fuel);
          if o.Done? || o.Continued? {
            StrictConfirms(w, s, h, o.st, fuel - 1);
          }
        }
      } else {
        StrictConfirmsSeq(w, s.stmts, h, st, fuel);
        var o := RunSeq(Strict(w), s.stmts, h, st, fuel);
        if (o.Done? || o.Continued?) && s.cond(o.st).Value? {
          StrictConfirms(w, s, h, s.cond(o.st).st, fuel - 1);
        }
      }
    }
  }

  lemma {:induction false} StrictConfirmsTry(w: World, s: Stmt, h: Option<Exc>, st: Store, fuel: nat)
    requires !w.strict
    requires s.TryFinally? || s.TryExcept?
    ensures Confirms(Run(Strict(w), s, h, st, fuel), Run(w, s, h, st, fuel))
    decreases fuel, s, 3
  {
    StrictConfirmsSeq(w, s.stmts, h, st, fuel);
    var o := RunSeq(Strict(w), s.stmts, h, st, fuel);
    if s.TryFinally? {
      if o.Ended() {
        StrictConfirmsSeq(w, s.fin, h, o.st, fuel);
      }
    } else if o.Raised? {
      var k := FirstHandler(w.isa, s.handlers, o.e);
      if k < |s.handlers| {
        var hd := s.handlers[k];
        StrictConfirms(w, hd.body, Some(o.e), Bind(hd.binder, o.e, o.st), fuel);
      } else if s.els.Some? {
        StrictConfirms(w, s.els.value, Some(o.e), o.st, fuel);
      }
    }
  }

  lemma {:induction false} StrictConfirmsSeq(w: World, ss: seq<Stmt>, h: Option<Exc>, st: Store, fuel: nat)
    requires !w.strict
    ensures Confirms(RunSeq(Strict(w), ss, h, st, fuel), RunSeq(w, ss, h, st, fuel))
    decreases fuel, ss, 0
  {
    if ss != [] {
      StrictConfirms(w, ss[0], h, st, fuel);
      var o := Run(Strict(w), ss[0], h, st, fuel);
      if o.Done? {
        StrictConfirmsSeq(w, ss[1..], h, o.st, fuel);
      }
    }
  }

  lemma {:induction false} StrictConfirmsFor(w: World, x: string, cur: int, last: int, downto: bool, body: Stmt,
                                   h: Option<Exc>, st: Store, fuel: nat)
    requires !w.strict
    ensures Confirms(RunFor(Strict(w), x, cur, last, downto, body, h, st, fuel),
                 RunFor(w, x, cur, last, downto, body, h, st, fuel))
    decreases fuel, body, 5
  {
    if fuel > 0 {
      StrictConfirms(w, body, h, st.Set(x, cur), fuel);
      var o := Run(Strict(w), body, h, st.Set(x, cur), fuel);
      if o.Done? || o.Continued? {
        StrictConfirmsFor(w, x, Next(cur, downto), last, downto, body, h, o.st, fuel - 1);
      }
    }
  }

  lemma {:induction false} StrictConfirmsSet(w: World, x: string, s: set<int>, cur: int, hi: int, body: Stmt,
                                   h: Option<Exc>, st: Store, fuel: nat)
    requires !w.strict
    ensures Confirms(RunSet(Strict(w), x, s, cur, hi, body, h, st, fuel), RunSet(w, x, s, cur, hi, body, h, st, fuel))
    decreases fuel, body, 5
  {
    if fuel > 0 {
      StrictConfirms(w, body, h, st.Set(x, cur), fuel);
      var o := if cur in s then Run(Strict(w), body, h, st.Set(x, cur), fuel) else Done(st);
      if o.Done? || o.Continued? {
        StrictConfirmsSet(w, x, s, cur + 1, hi, body, h, o.st, fuel - 1);
      }
    }
  }

  /** An outcome `a` that is no timeout is final. */
  predicate Settled(a: Outcome, b: Outcome) {
    !a.Timeout? ==> a == b
  }

  lemma {:induction false} MoreFuel(w: World, s: Stmt, h: Option<Exc>, st: Store, fuel: nat, more: nat)
    requires fuel <= more
    ensures Settled(Run(w, s, h, st, fuel), Run(w, s, h, st, more))
    decreases fuel, s, 4
  {
    match s
    case Compound(stmts) => MoreFuelSeq(w, stmts, h, st, fuel, more);
    case If(_, _, _) => MoreFuelBranch(w, s, h, st, fuel, more);
    case Case(_, _, _) => MoreFuelBranch(w, s, h, st, fuel, more);
    case While(_, _) => MoreFuelLoop(w, s, h, st, fuel, more);
    case Repeat(_, _) => MoreFuelLoop(w, s, h, st, fuel, more);
    case For(x, car, from, to, downto, body) =>
      if from(st).Value? && to(from(st).st).Value? {
        var st2 := to(from(st).st).st;
        MoreFuelFor(w, x, AsNum(from(st).v), AsNum(to(from(st).st).v), downto, body, h, st2, fuel, more);
      }
    case ForInSet(x, car, lo, hi, e, body) =>
      if e(st).Value? {
        MoreFuelSet(w, x, AsSet(e(st).v), lo, hi, body, h, e(st).st, fuel, more);
      }
    case TryFinally(_, _) => MoreFuelTry(w, s, h, st, fuel, more);
    case TryExcept(_, _, _) => MoreFuelTry(w, s, h, st, fuel, more);
    case _ =>
  }

  lemma {:induction false} MoreFuelBranch(w: World, s: Stmt, h: Option<Exc>, st: Store, fuel: nat, more: nat)
    requires fuel <= more
    requires s.If? || s.Case?
    ensures Settled(Run(w, s, h, st, fuel), Run(w, s, h, st, more))
    decreases fuel, s, 3
  {
    if s.If? {
      if s.cond(st).Value? {
        MoreFuel(w, s.thn, h, s.cond(st).st, fuel, more);
        if s.els.Some? {
          MoreFuel(w, s.els.value, h, s.cond(st).st, fuel, more);
        }
      }
    } else if s.e(st).Value? {
      var k := FirstArm(s.arms, AsNum(s.e(st).v));
      if k < |s.arms| {
        MoreFuel(w, s.arms[k].body, h, s.e(st).st, fuel, more);
      } else if s.els.Some? {
        MoreFuel(w, s.els.value, h, s.e(st).st, fuel, more);
      }
    }
  }

  lemma {:induction false} MoreFuelLoop(w: World, s: Stmt, h: Option<Exc>, st: Store, fuel: nat, more: nat)
    requires fuel <= more
    requires s.While? || s.Repeat?
    ensures Settled(Run(w, s, h, st, fuel), Run(w, s, h, st, more))
    decreases fuel, s, 3
  {
    if fuel > 0 {
      if s.While? {
        if s.cond(st).Value? {
          MoreFuel(w, s.body, h, s.cond(st).st, fuel, more);
          var o := Run(w, s.body, h, s.cond(st).st, fuel);
          if o.Done? || o.Continued? {
            MoreFuel(w, s, h, o.st, fuel - 1, more - 1);
          }
        }
      } else {
        MoreFuelSeq(w, s.stmts, h, st, fuel, more);
        var o := RunSeq(w, s.stmts, h, st, fuel);
        if (o.Done? || o.Continued?) && s.cond(o.st).Value? {
          MoreFuel(w, s, h, s.cond(o.st).st, fuel - 1, more - 1);
        }
      }
    }
  }

  lemma {:induction false} MoreFuelTry(w: World, s: Stmt, h: Option<Exc>, st: Store, fuel: nat, more: nat)
    requires fuel <= more
    requires s.TryFinally? || s.TryExcept?
    ensures Settled(Run(w, s, h, st, fuel), Run(w, s, h, st, more))
    decreases fuel, s, 3
  {
    MoreFuelSeq(w, s.stmts, h, st, fuel, more);
    var o := RunSeq(w, s.stmts, h, st, fuel);
    if s.TryFinally? {
      if o.Ended() {
        MoreFuelSeq(w, s.fin, h, o.st, fuel, more);
      }
    } else if o.Raised? {
      var k := FirstHandler(w.isa, s.handlers, o.e);
      if k < |s.handlers| {
        var hd := s.handlers[k];
        MoreFuel(w, hd.body, Some(o.e), Bind(hd.binder, o.e, o.st), fuel, more);
      } else if s.els.Some? {
        MoreFuel(w, s.els.value, Some(o.e), o.st, fuel, more);
      }
    }
  }

  lemma {:induction false} MoreFuelSeq(w: World, ss: seq<Stmt>, h: Option<Exc>, st: Store, fuel: nat, more: nat)
    requires fuel <= more
    ensures Settled(RunSeq(w, ss, h, st, fuel), RunSeq(w, ss, h, st, more))
    decreases fuel, ss, 0
  {
    if ss != [] {
      MoreFuel(w, ss[0], h, st, fuel, more);
      var o := Run(w, ss[0], h, st, fuel);
      if o.Done? {
        MoreFuelSeq(w, ss[1..], h, o.st, fuel, more);
      }
    }
  }

  lemma {:induction false} MoreFuelFor(w: World, x: string, cur: int, last: int, downto: bool, body: Stmt,
                                   h: Option<Exc>, st: Store, fuel: nat, more: nat)
    requires fuel <= more
    ensures Settled(RunFor(w, x, cur, last, downto, body, h, st, fuel),
                 RunFor(w, x, cur, last, downto, body, h, st, more))
    decreases fuel, body, 5
  {
    if fuel > 0 {
      MoreFuel(w, body, h, st.Set(x, cur), fuel, more);
      var o := Run(w, body, h, st.Set(x, cur), fuel);
      if o.Done? || o.Continued? {
        MoreFuelFor(w, x, Next(cur, downto), last, downto, body, h, o.st, fuel - 1, more - 1);
      }
    }
  }

  lemma {:induction false} MoreFuelSet(w: World, x: string, s: set<int>, cur: int, hi: int, body: Stmt,
                                   h: Option<Exc>, st: Store, fuel: nat, more: nat)
    requires fuel <= more
    ensures Settled(RunSet(w, x, s, cur, hi, body, h, st, fuel), RunSet(w, x, s, cur, hi, body, h, st, more))
    decreases fuel, body, 5
  {
    if fuel > 0 {
      MoreFuel(w, body, h, st.Set(x, cur), fuel, more);
      var o := if cur in s then Run(w, body, h, st.Set(x, cur), fuel) else Done(st);
      if o.Done? || o.Continued? {
        MoreFuelSet(w, x, s, cur + 1, hi, body, h, o.st, fuel - 1, more - 1);
      }
    }
  }
}
