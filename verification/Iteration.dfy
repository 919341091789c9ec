/** A `for` runs its body for exactly the listed values, in order, and ends if its body does. */
module Iteration {
  import opened Wrappers
  import opened Carriers
  import opened Pascal
  import opened Strictness

  /** The values from `first` to `last`, upward or downward. */
  function Values(first: int, last: int, downto: bool): (xs: seq<int>)
    ensures |xs| == if downto then (if first < last then 0 else first - last + 1)
                    else (if last < first then 0 else last - first + 1)
    ensures forall i :: 0 <= i < |xs| ==> xs[i] == if downto then first - i else first + i
    decreases if downto then first - last else last - first
  {
    if if downto then first < last else last < first then []
    else [first] + Values(Next(first, downto), last, downto)
  }

  /** The members of `s` between `lo` and `hi`, in ascending order. */
  function MembersBetween(s: set<int>, lo: int, hi: int): (xs: seq<int>)
    ensures forall x :: x in xs <==> x in s && lo <= x <= hi
    ensures forall i, j :: 0 <= i < j < |xs| ==> xs[i] < xs[j]
    decreases hi - lo
  {
    if lo > hi then []
    else
      var rest := MembersBetween(s, lo + 1, hi);
      assert forall j :: 0 <= j < |rest| ==> rest[j] in rest;
      if lo in s then [lo] + rest else rest
  }

  /** Run the body once for each listed value. A fixed control variable must keep its value. */
  function RunEach(w: World, x: string, xs: seq<int>, fixed: bool, body: Stmt, h: Option<Exc>, st: Store,
                   fuel: nat): Outcome
  {
    if xs == [] then Done(st) else
    var o := Run(w, body, h, st.Set(x, xs[0]), fuel);
    if o.Done? || o.Continued? then
      if fixed && o.st.Get(x) != xs[0] then Undefined
      else RunEach(w, x, xs[1..], fixed, body, h, o.st, fuel)
    else if o.Broke? then Done(o.st)
    else o
  }

  lemma {:induction false} ForVisits(w: World, x: string, first: int, last: int, downto: bool, body: Stmt,
                                     h: Option<Exc>, st: Store, fuel: nat, more: nat)
    requires if downto then last <= first else first <= last
    requires more >= fuel + |Values(first, last, downto)|
    requires !RunEach(w, x, Values(first, last, downto), true, body, h, st, fuel).Timeout?
    ensures RunFor(w, x, first, last, downto, body, h, st, more) ==
            RunEach(w, x, Values(first, last, downto), true, body, h, st, fuel)
    decreases |Values(first, last, downto)|
  {
    hide Run, RunFor;
    RunForStep(w, x, first, last, downto, body, h, st, more);
    MoreFuel(w, body, h, st.Set(x, first), fuel, more);
    var o := Run(w, body, h, st.Set(x, first), fuel);
    assert Values(first, last, downto)[1..] == Values(Next(first, downto), last, downto);
    if (o.Done? || o.Continued?) && o.st.Get(x) == first && first != last {
      ForVisits(w, x, Next(first, downto), last, downto, body, h, o.st, fuel, more - 1);
    }
  }

  lemma {:induction false} SetVisits(w: World, x: string, s: set<int>, lo: int, hi: int, body: Stmt, h: Option<Exc>,
                                     st: Store, fuel: nat, more: nat)
    requires lo <= hi && more >= fuel + (hi - lo + 1)
    requires !RunEach(w, x, MembersBetween(s, lo, hi), false, body, h, st, fuel).Timeout?
    ensures RunSet(w, x, s, lo, hi, body, h, st, more) ==
            RunEach(w, x, MembersBetween(s, lo, hi), false, body, h, st, fuel)
    decreases hi - lo
  {
    hide Run, RunSet;
    RunSetStep(w, x, s, lo, hi, body, h, st, more);
    var xs := MembersBetween(s, lo, hi);
    if lo in s {
      MoreFuel(w, body, h, st.Set(x, lo), fuel, more);
      assert xs[1..] == MembersBetween(s, lo + 1, hi);
    }
    var o := if lo in s then Run(w, body, h, st.Set(x, lo), fuel) else Done(st);
    if (o.Done? || o.Continued?) && lo != hi {
      SetVisits(w, x, s, lo + 1, hi, body, h, o.st, fuel, more - 1);
    }
  }

  // ----- termination

  /** The statement ends from this store, with some fuel. */
  ghost predicate Ends(w: World, s: Stmt, h: Option<Exc>, st: Store) {
    exists f: nat :: !Run(w, s, h, st, f).Timeout?
  }

  ghost predicate EachEnd(w: World, x: string, xs: seq<int>, fixed: bool, body: Stmt, h: Option<Exc>, st: Store) {
    exists f: nat :: !RunEach(w, x, xs, fixed, body, h, st, f).Timeout?
  }

  lemma {:induction false} MoreFuelEach(w: World, x: string, xs: seq<int>, fixed: bool, body: Stmt, h: Option<Exc>,
                                        st: Store, fuel: nat, more: nat)
    requires fuel <= more
    ensures Settled(RunEach(w, x, xs, fixed, body, h, st, fuel), RunEach(w, x, xs, fixed, body, h, st, more))
    decreases xs
  {
    hide Run;
    if xs != [] {
      MoreFuel(w, body, h, st.Set(x, xs[0]), fuel, more);
      var o := Run(w, body, h, st.Set(x, xs[0]), fuel);
      if o.Done? || o.Continued? { MoreFuelEach(w, x, xs[1..], fixed, body, h, o.st, fuel, more); }
    }
  }

  /**
   * If the body ends from every store, each time with the fuel it needs there, running it for a list of
   * values ends.
   */
  lemma {:induction false} EachEnds(w: World, x: string, xs: seq<int>, fixed: bool, body: Stmt, h: Option<Exc>,
                                    st: Store)
    requires forall st1: Store :: Ends(w, body, h, st1)
    ensures EachEnd(w, x, xs, fixed, body, h, st)
    decreases xs
  {
    hide Run;
    if xs == [] {
      assert RunEach(w, x, xs, fixed, body, h, st, 0) == Done(st);
    } else {
      assert Ends(w, body, h, st.Set(x, xs[0]));
      var f: nat :| !Run(w, body, h, st.Set(x, xs[0]), f).Timeout?;
      var o := Run(w, body, h, st.Set(x, xs[0]), f);
      var more := f;
      if o.Done? || o.Continued? {
        EachEnds(w, x, xs[1..], fixed, body, h, o.st);
        var g: nat :| !RunEach(w, x, xs[1..], fixed, body, h, o.st, g).Timeout?;
        more := if f <= g then g else f;
        MoreFuelEach(w, x, xs[1..], fixed, body, h, o.st, g, more);
      }
      MoreFuel(w, body, h, st.Set(x, xs[0]), f, more);
      assert !RunEach(w, x, xs, fixed, body, h, st, more).Timeout?;
    }
  }

  /** A `for` loop, counting or over a set, ends from every store from which its body does. */
  lemma LoopEnds(w: World, s: Stmt, h: Option<Exc>, st: Store)
    requires s.For? || s.ForInSet?
    requires forall st1: Store :: Ends(w, s.body, h, st1)
    ensures Ends(w, s, h, st)
  {
    if s.For? { ForEnds(w, s, h, st); } else { SetEnds(w, s, h, st); }
  }

  lemma ForEnds(w: World, s: Stmt, h: Option<Exc>, st: Store)
    requires s.For? && forall st1: Store :: Ends(w, s.body, h, st1)
    ensures Ends(w, s, h, st)
  {
    hide Values, Ends;
    var more := 0;
    if s.from(st).Value? && s.to(s.from(st).st).Value? {
      var first, last, st2 := AsNum(s.from(st).v), AsNum(s.to(s.from(st).st).v), s.to(s.from(st).st).st;
      if if s.downto then last <= first else first <= last {
        var xs := Values(first, last, s.downto);
        EachEnds(w, s.x, xs, true, s.body, h, st2);
        var f: nat :| !RunEach(w, s.x, xs, true, s.body, h, st2, f).Timeout?;
        more := f + |xs|;
        ForVisits(w, s.x, first, last, s.downto, s.body, h, st2, f, more);
      }
    }
    EndsWith(w, s, h, st, more);
  }

  lemma SetEnds(w: World, s: Stmt, h: Option<Exc>, st: Store)
    requires s.ForInSet? && forall st1: Store :: Ends(w, s.body, h, st1)
    ensures Ends(w, s, h, st)
  {
    hide MembersBetween, Ends;
    var more := 0;
    if s.lo <= s.hi && s.e(st).Value? {
      var xs := MembersBetween(AsSet(s.e(st).v), s.lo, s.hi);
      EachEnds(w, s.x, xs, false, s.body, h, s.e(st).st);
      var f: nat :| !RunEach(w, s.x, xs, false, s.body, h, s.e(st).st, f).Timeout?;
      more := f + (s.hi - s.lo + 1);
      SetVisits(w, s.x, AsSet(s.e(st).v), s.lo, s.hi, s.body, h, s.e(st).st, f, more);
    }
    EndsWith(w, s, h, st, more);
  }

  lemma EndsWith(w: World, s: Stmt, h: Option<Exc>, st: Store, fuel: nat)
    requires !Run(w, s, h, st, fuel).Timeout?
    ensures Ends(w, s, h, st)
  {
  }

  // ----- walking a carrier

  /** Steps from `x` to `last`, going around the end of the carrier if that is where they lie. */
  function Distance(car: Carrier, x: int, last: int, downto: bool): nat
    requires InRange(car, x) && InRange(car, last)
  {
    var d := if downto then x - last else last - x;
    if d >= 0 then d else d + Modulus(car.bits)
  }

  lemma StepCloser(car: Carrier, x: int, last: int, downto: bool)
    requires InRange(car, x) && InRange(car, last) && x != last
    ensures var next := Wrap(car, Next(x, downto));
            InRange(car, next) && Distance(car, next, last, downto) == Distance(car, x, last, downto) - 1
  {
    var m, y := Modulus(car.bits), Next(x, downto);
    if InRange(car, y) {
      WrapInRange(car, y);
    } else if downto {
      ModUnique(y, m, -1, y + m);
    } else {
      ModUnique(y, m, if car.Signed? then 0 else 1, if car.Signed? then y else y - m);
    }
  }

  /** The values a control variable takes from `x` until it reaches `last`, each the carrier's next. */
  function Walk(car: Carrier, x: int, last: int, downto: bool): (xs: seq<int>)
    requires InRange(car, x) && InRange(car, last)
    ensures xs != [] && xs[0] == x
    decreases Distance(car, x, last, downto)
  {
    if x == last then [x]
    else
      StepCloser(car, x, last, downto);
      [x] + Walk(car, Wrap(car, Next(x, downto)), last, downto)
  }

  lemma {:induction false} WalkIsValues(car: Carrier, x: int, last: int, downto: bool)
    requires InRange(car, x) && InRange(car, last) && if downto then last <= x else x <= last
    ensures Walk(car, x, last, downto) == Values(x, last, downto)
    decreases Distance(car, x, last, downto)
  {
    if x != last {
      var y := Next(x, downto);
      assert Wrap(car, y) == y;
      StepCloser(car, x, last, downto);
      WalkIsValues(car, y, last, downto);
      assert Values(x, last, downto) == [x] + Values(y, last, downto);
    } else {
      assert Values(x, last, downto) == [x] + Values(Next(x, downto), last, downto);
    }
  }

  /** The walk from the converted first value visits the listed values exactly if the first is in range too. */
  lemma WalkIsValuesIff(car: Carrier, first: int, last: int, downto: bool)
    requires InRange(car, last) && if downto then last <= first else first <= last
    ensures Walk(car, Wrap(car, first), last, downto) == Values(first, last, downto) <==> InRange(car, first)
  {
    if InRange(car, first) {
      WalkIsValues(car, first, last, downto);
    } else {
      assert Values(first, last, downto)[0] == first;
    }
  }
}
