/** Choice among overloaded routines: dominance over conversion scores, after an integer-domain stage. */
module Overloads {
  import opened Wrappers
  import opened Carriers
  import opened ConstInts

  /** A routine declaration, by identity. */
  type Decl = nat

  const EXACT_RANK: nat := 1
  const EQUAL_RANK: nat := 2
  const INT_DOMAIN_RANK: nat := 5
  const NOT_VIABLE_RANK: nat := 255

  datatype Score = Score(rank: nat, distance: int)

  predicate IsViable(x: Score) {
    x.rank != NOT_VIABLE_RANK
  }

  /** A formal parameter, with the score of converting this call's argument at its position to it. */
  datatype Formal = Formal(mutableRef: bool, hasDefault: bool, integer: Option<Carrier>, conversion: Score)

  datatype Candidate = Candidate(decl: Option<Decl>, formals: seq<Formal>)

  /** A candidate that takes the call, and its score at each explicit argument. */
  datatype Scored = Scored(decl: Decl, formals: seq<Formal>, scores: seq<Score>)

  datatype Pick = Pick(decl: Option<Decl>, ambiguous: bool)

  /** The integers an argument may stand for, and the signedness that represents it best. */
  datatype IntDomain = IntDomain(low: Int64, high: UInt64, preferSigned: bool)

  // ------------------------------------------------------------------ dominance

  predicate Less(a: Score, b: Score) {
    if a.rank != b.rank then a.rank < b.rank else a.distance < b.distance
  }

  /** No worse anywhere, better somewhere. */
  predicate Dominates(a: Scored, b: Scored) {
    var n := if |a.scores| <= |b.scores| then |a.scores| else |b.scores|;
    && (forall i :: 0 <= i < n ==> !Less(b.scores[i], a.scores[i]))
    && (exists i :: 0 <= i < n && Less(a.scores[i], b.scores[i]))
  }

  /** Dominance as the source computes it, in one pass with an early exit. */
  method DominatesScan(a: Scored, b: Scored) returns (r: bool)
    ensures r == Dominates(a, b)
  {
    var n := if |a.scores| <= |b.scores| then |a.scores| else |b.scores|;
    var anyStrict := false;
    for i := 0 to n
      invariant forall j :: 0 <= j < i ==> !Less(b.scores[j], a.scores[j])
      invariant anyStrict <==> exists j :: 0 <= j < i && Less(a.scores[j], b.scores[j])
    {
      if Less(b.scores[i], a.scores[i]) { return false; }
      if Less(a.scores[i], b.scores[i]) { anyStrict := true; }
    }
    return anyStrict;
  }

  lemma DominanceIsStrict(a: Scored, b: Scored)
    ensures !(Dominates(a, b) && Dominates(b, a))
  {
  }

  lemma DominanceIsTransitive(a: Scored, b: Scored, c: Scored)
    requires |a.scores| == |b.scores| == |c.scores|
    requires Dominates(a, b) && Dominates(b, c)
    ensures Dominates(a, c)
  {
    var i :| 0 <= i < |a.scores| && Less(a.scores[i], b.scores[i]);
    assert !Less(c.scores[i], b.scores[i]);
    assert Less(a.scores[i], c.scores[i]);
  }

  // ------------------------------------------------------------------ the best of a list

  predicate IsDominator(vs: seq<Scored>, k: nat) {
    k < |vs| && forall j :: 0 <= j < |vs| && j != k ==> Dominates(vs[k], vs[j])
  }

  ghost predicate HasDominator(vs: seq<Scored>) {
    exists k: nat :: IsDominator(vs, k)
  }

  /** The declaration that dominates every other; the reference the one-pass scan is measured against. */
  function Decide(vs: seq<Scored>): Pick {
    if vs == [] then Pick(None, false) else DecideFrom(vs, 0)
  }

  function DecideFrom(vs: seq<Scored>, k: nat): Pick
    requires k <= |vs|
    decreases |vs| - k
  {
    if k == |vs| then Pick(None, true)
    else if IsDominator(vs, k) then Pick(Some(vs[k].decl), false)
    else DecideFrom(vs, k + 1)
  }

  lemma DominatorUnique(vs: seq<Scored>, k: nat, j: nat)
    requires IsDominator(vs, k) && IsDominator(vs, j)
    ensures k == j
  {
    if k != j { DominanceIsStrict(vs[k], vs[j]); }
  }

  lemma {:induction false} DecideFinds(vs: seq<Scored>, k: nat, from: nat)
    requires from <= k && IsDominator(vs, k)
    ensures k < |vs| && DecideFrom(vs, from) == Pick(Some(vs[k].decl), false)
    decreases k - from
  {
    hide Dominates;
    if from < k {
      if IsDominator(vs, from) { DominatorUnique(vs, from, k); }
      DecideFinds(vs, k, from + 1);
    }
  }

  /** Unambiguous exactly when one candidate dominates all others, ambiguous exactly when none of two or more does. */
  lemma DecideMeans(vs: seq<Scored>)
    ensures Decide(vs).decl.Some? <==> HasDominator(vs)
    ensures Decide(vs).ambiguous <==> |vs| >= 2 && !HasDominator(vs)
    ensures forall k: nat :: IsDominator(vs, k) ==> Decide(vs) == Pick(Some(vs[k].decl), false)
  {
    hide IsDominator;
    if |vs| == 1 { OnlyDominates(vs); }
    if HasDominator(vs) {
      var k: nat :| IsDominator(vs, k);
      DecideFinds(vs, k, 0);
      forall j: nat | IsDominator(vs, j) ensures j == k { DominatorUnique(vs, j, k); }
    } else if vs != [] {
      NoDecision(vs, 0);
    }
  }

  lemma OnlyDominates(vs: seq<Scored>)
    requires |vs| == 1
    ensures IsDominator(vs, 0)
  {
  }

  lemma {:induction false} NoDecision(vs: seq<Scored>, from: nat)
    requires from <= |vs| && !HasDominator(vs)
    ensures DecideFrom(vs, from) == Pick(None, true)
    decreases |vs| - from
  {
    if from < |vs| { NoDecision(vs, from + 1); }
  }

  /**
   * One pass to find a champion, one to verify it. The champion pass never misses a dominator,
   * because nothing that comes after one can displace it.
   */
  method Champion(vs: seq<Scored>) returns (pick: Pick)
    requires |vs| >= 1
    ensures pick == Decide(vs)
  {
    DecideMeans(vs);
    var best := 0;
    for i := 1 to |vs|
      invariant 0 <= best < i
      invariant forall k: nat :: k < i && IsDominator(vs, k) ==> best == k
    {
      var better := DominatesScan(vs[i], vs[best]);
      if better {
        DominanceIsStrict(vs[i], vs[best]);
        best := i;
      }
    }
    for i := 0 to |vs|
      invariant forall j :: 0 <= j < i && j != best ==> Dominates(vs[best], vs[j])
    {
      if i != best {
        var beaten := DominatesScan(vs[best], vs[i]);
        if !beaten {
          assert !HasDominator(vs);
          NoDecision(vs, 0);
          return Pick(None, true);
        }
      }
    }
    assert IsDominator(vs, best);
    return Pick(Some(vs[best].decl), false);
  }

  // ------------------------------------------------------------------ viability

  predicate Accepts(c: Candidate, n: nat) {
    && c.decl.Some?
    && n <= |c.formals|
    && (forall i :: n <= i < |c.formals| ==> c.formals[i].hasDefault)
    && (forall i :: 0 <= i < n ==> IsViable(c.formals[i].conversion))
  }

  function ScoresOf(c: Candidate, n: nat): seq<Score>
    requires n <= |c.formals|
  {
    seq(n, i requires 0 <= i < n => c.formals[i].conversion)
  }

  function Score1(c: Candidate, n: nat): seq<Scored> {
    if Accepts(c, n) then [Scored(c.decl.value, c.formals, ScoresOf(c, n))] else []
  }

  /** The candidates that take the call, in order. */
  function Viable(cs: seq<Candidate>, n: nat): seq<Scored> {
    if cs == [] then [] else Score1(cs[0], n) + Viable(cs[1..], n)
  }

  /** Arity with default slack, then every explicit argument, stopping at the first that does not convert. */
  method ScoreCandidate(c: Candidate, n: nat) returns (r: seq<Scored>)
    ensures r == Score1(c, n)
  {
    if c.decl.None? || n > |c.formals| { return []; }
    for i := n to |c.formals|
      invariant forall j :: n <= j < i ==> c.formals[j].hasDefault
    {
      if !c.formals[i].hasDefault { return []; }
    }
    var scores: seq<Score> := [];
    for i := 0 to n
      invariant scores == ScoresOf(c, i)
      invariant forall j :: 0 <= j < i ==> IsViable(c.formals[j].conversion)
    {
      if !IsViable(c.formals[i].conversion) { return []; }
      scores := scores + [c.formals[i].conversion];
    }
    return [Scored(c.decl.value, c.formals, scores)];
  }

  // ------------------------------------------------------------------ the integer-domain stage

  /** The formal's carrier holds every integer of the domain. */
  predicate DomainFits(d: IntDomain, formal: Carrier) {
    if formal.Unsigned? then d.low >= 0 && d.high <= High(formal)
    else d.low >= Low(formal) && d.high <= High(formal)
  }

  lemma DomainFitsMeans(d: IntDomain, formal: Carrier)
    requires d.low <= d.high
    ensures DomainFits(d, formal) <==> forall x :: d.low <= x <= d.high ==> InRange(formal, x)
  {
    assert d.low <= d.low <= d.high;
    assert d.low <= d.high <= d.high;
    if forall x :: d.low <= x <= d.high ==> InRange(formal, x) {
      assert InRange(formal, d.low) && InRange(formal, d.high);
    }
  }

  /** The domain of an untyped constant argument. */
  function DomainOfConstant(c: ConstInt): IntDomain {
    if c.carrier.Unsigned? then
      if c.pattern <= 0x7fff_ffff then IntDomain(-0x8000_0000, 0x7fff_ffff, true)
      else IntDomain(0, c.pattern, false)
    else if -0x8000_0000 <= c.value <= 0x7fff_ffff then IntDomain(-0x8000_0000, 0x7fff_ffff, true)
    else if c.value < 0 then IntDomain(c.value, 0, true)
    else IntDomain(0, c.value, false)
  }

  /** A constant of the default integer's range stands for that whole range, any other for all between it and zero. */
  lemma ConstantDomainInNumbers(c: ConstInt)
    requires Readable(c)
    ensures var x, d := Meaning(c), DomainOfConstant(c);
            if -2147483648 <= x <= 2147483647 then d == IntDomain(-2147483648, 2147483647, true)
            else if x < 0 then d == IntDomain(x, 0, true)
            else d == IntDomain(0, x, false)
  {
    if c.carrier.Signed? && c.value >= 0 {
      assert 0 <= Meaning(c) < TWO_TO_63;
    }
  }

  /** A formal chosen for a constant's domain holds the constant itself. */
  lemma ConstantReachesItsFormal(c: ConstInt, formal: Carrier)
    requires Readable(c) && DomainFits(DomainOfConstant(c), formal)
    ensures InRange(formal, Meaning(c))
  {
    if c.carrier.Signed? && c.value >= 0 {
      WrapInRange(Signed(64), c.value);
      WrapInRange(Signed(64), Meaning(c));
    }
  }

  function DomainOfCarrier(c: Carrier): IntDomain {
    IntDomain(Low(c), High(c), c.Signed?)
  }

  /** A typed argument stands for all values of its type, with a sign if some are negative. */
  lemma CarrierDomainInNumbers(c: Carrier, x: int)
    ensures var d := DomainOfCarrier(c);
            && (d.low <= x <= d.high <==> InRange(c, x))
            && (d.preferSigned <==> InRange(c, -1))
  {
  }

  /** A formal fits a typed argument's domain iff it holds every value of the argument's type. */
  lemma TypedArgumentReachesItsFormal(c: Carrier, formal: Carrier)
    ensures DomainFits(DomainOfCarrier(c), formal) <==> forall x :: InRange(c, x) ==> InRange(formal, x)
  {
    hide DomainFits;
    DomainFitsMeans(DomainOfCarrier(c), formal);
    if forall x :: InRange(c, x) ==> InRange(formal, x) {
      forall x | Low(c) <= x <= High(c) ensures InRange(formal, x) { assert InRange(c, x); }
    }
  }

  function DomainScore(d: IntDomain, formal: Carrier): Score {
    Score(INT_DOMAIN_RANK, formal.bits * 2 + if d.preferSigned == formal.Signed? then 0 else 1)
  }

  predicate Settled(x: Score) {
    x.rank == EXACT_RANK || x.rank == EQUAL_RANK
  }

  /** The score at one argument once the domain is taken into account; nothing if the formal cannot take it. */
  function Rescore1(domain: Option<IntDomain>, formal: Formal, current: Score): Option<Score> {
    if domain.None? || Settled(current) then Some(current)
    else if formal.mutableRef || formal.integer.None? || !DomainFits(domain.value, formal.integer.value) then None
    else Some(DomainScore(domain.value, formal.integer.value))
  }

  predicate Rescorable(v: Scored, domains: seq<Option<IntDomain>>) {
    && |domains| <= |v.formals| && |v.scores| == |domains|
    && forall i :: 0 <= i < |domains| ==> Rescore1(domains[i], v.formals[i], v.scores[i]).Some?
  }

  function Rescore(v: Scored, domains: seq<Option<IntDomain>>): seq<Scored> {
    if !Rescorable(v, domains) then []
    else [v.(scores := seq(|domains|, i requires 0 <= i < |domains| =>
                             Rescore1(domains[i], v.formals[i], v.scores[i]).value))]
  }

  function Rescored(vs: seq<Scored>, domains: seq<Option<IntDomain>>): seq<Scored> {
    if vs == [] then [] else Rescore(vs[0], domains) + Rescored(vs[1..], domains)
  }

  predicate SeesInteger(domains: seq<Option<IntDomain>>) {
    exists i :: 0 <= i < |domains| && domains[i].Some?
  }

  method RescoreCandidate(v: Scored, domains: seq<Option<IntDomain>>) returns (r: seq<Scored>)
    requires |v.scores| == |domains|
    ensures r == Rescore(v, domains)
  {
    if |domains| > |v.formals| { return []; }
    var scores := v.scores;
    for i := 0 to |domains|
      invariant |scores| == |domains|
      invariant forall j :: 0 <= j < i ==> Rescore1(domains[j], v.formals[j], v.scores[j]) == Some(scores[j])
      invariant forall j :: i <= j < |domains| ==> scores[j] == v.scores[j]
    {
      if domains[i].None? || Settled(scores[i]) { continue; }
      if v.formals[i].mutableRef || v.formals[i].integer.None? { return []; }
      if !DomainFits(domains[i].value, v.formals[i].integer.value) { return []; }
      scores := scores[i := DomainScore(domains[i].value, v.formals[i].integer.value)];
    }
    assert scores == seq(|domains|,
                         i requires 0 <= i < |domains| => Rescore1(domains[i], v.formals[i], v.scores[i]).value);
    return [v.(scores := scores)];
  }

  /** The candidates that dominance is asked about. */
  function Pool(vs: seq<Scored>, domains: seq<Option<IntDomain>>): seq<Scored> {
    if |vs| >= 2 && SeesInteger(domains) && Rescored(vs, domains) != [] then Rescored(vs, domains) else vs
  }

  function PickSpec(cs: seq<Candidate>, domains: seq<Option<IntDomain>>): Pick {
    Decide(Pool(Viable(cs, |domains|), domains))
  }

  method IntegerStage(vs: seq<Scored>, domains: seq<Option<IntDomain>>) returns (pick: Option<Pick>)
    requires forall i :: 0 <= i < |vs| ==> |vs[i].scores| == |domains|
    ensures pick == if SeesInteger(domains) && Rescored(vs, domains) != []
                    then Some(Decide(Rescored(vs, domains))) else None
  {
    hide Decide, Rescore, IsDominator;
    var saw := false;
    for i := 0 to |domains|
      invariant saw <==> exists j :: 0 <= j < i && domains[j].Some?
    {
      if domains[i].Some? { saw := true; }
    }
    if !saw { return None; }
    var pool: seq<Scored> := [];
    for i := 0 to |vs|
      invariant pool + Rescored(vs[i..], domains) == Rescored(vs, domains)
    {
      var r := RescoreCandidate(vs[i], domains);
      assert vs[i..][1..] == vs[i + 1..];
      pool := pool + r;
    }
    assert vs[|vs|..] == [];
    assert pool == Rescored(vs, domains);
    if pool == [] { return None; }
    if |pool| == 1 {
      OnlyOne(pool);
      return Some(Pick(Some(pool[0].decl), false));
    }
    var p := Champion(pool);
    return Some(p);
  }

  lemma OnlyOne(vs: seq<Scored>)
    requires |vs| == 1
    ensures Decide(vs) == Pick(Some(vs[0].decl), false)
  {
    DecideMeans(vs);
    assert IsDominator(vs, 0);
  }

  lemma NoneViable()
    ensures Decide([]) == Pick(None, false)
  {
  }

  lemma ScoredWidth(c: Candidate, n: nat)
    ensures |Score1(c, n)| <= 1
    ensures forall i :: 0 <= i < |Score1(c, n)| ==> |Score1(c, n)[i].scores| == n
  {
  }

  /** The picker as the source runs it. */
  method PickOverload(cs: seq<Candidate>, domains: seq<Option<IntDomain>>) returns (pick: Pick)
    ensures pick == PickSpec(cs, domains)
  {
    hide Decide, Rescored, Score1, SeesInteger;
    var n := |domains|;
    var viable: seq<Scored> := [];
    for i := 0 to |cs|
      invariant viable + Viable(cs[i..], n) == Viable(cs, n)
      invariant forall j :: 0 <= j < |viable| ==> |viable[j].scores| == n
    {
      var r := ScoreCandidate(cs[i], n);
      ScoredWidth(cs[i], n);
      assert cs[i..][1..] == cs[i + 1..];
      viable := viable + r;
    }
    assert cs[|cs|..] == [];
    assert viable == Viable(cs, n);
    if viable == [] {
      NoneViable();
      return Pick(None, false);
    }
    if |viable| == 1 {
      OnlyOne(viable);
      return Pick(Some(viable[0].decl), false);
    }
    var stage := IntegerStage(viable, domains);
    if stage.Some? { return stage.value; }
    pick := Champion(viable);
  }

  // ------------------------------------------------------------------ order independence

  lemma DominatorMoves(vs: seq<Scored>, ws: seq<Scored>, k: nat) returns (j: nat)
    requires multiset(vs) == multiset(ws) && IsDominator(vs, k)
    ensures IsDominator(ws, j) && ws[j] == vs[k]
  {
    var x := vs[k];
    assert x in multiset(ws);
    j :| 0 <= j < |ws| && ws[j] == x;
    forall i | 0 <= i < |ws| && i != j ensures Dominates(ws[j], ws[i]) {
      var y := ws[i];
      if y == x {
        TwiceCounted(ws, i, j);
        CountedTwice(vs, k);
      } else {
        assert y in multiset(vs);
        var h :| 0 <= h < |vs| && vs[h] == y;
      }
    }
  }

  lemma TwiceCounted(ws: seq<Scored>, i: nat, j: nat)
    requires i < |ws| && j < |ws| && i != j && ws[i] == ws[j]
    ensures multiset(ws)[ws[i]] >= 2
  {
    var a, b := if i < j then i else j, if i < j then j else i;
    assert ws == ws[..a] + [ws[a]] + ws[a + 1..b] + [ws[b]] + ws[b + 1..];
  }

  /** A dominator occurs once, since nothing dominates itself. */
  lemma CountedTwice(vs: seq<Scored>, k: nat)
    requires IsDominator(vs, k)
    ensures multiset(vs)[vs[k]] == 1
  {
    var x := vs[k];
    assert vs == vs[..k] + [x] + vs[k + 1..];
    forall i | 0 <= i < |vs| && i != k ensures vs[i] != x { DominanceIsStrict(vs[k], vs[i]); }
    assert x !in vs[..k] && x !in vs[k + 1..];
  }

  lemma DecideIgnoresOrder(vs: seq<Scored>, ws: seq<Scored>)
    requires multiset(vs) == multiset(ws)
    ensures Decide(vs) == Decide(ws)
  {
    DecideMeans(vs);
    DecideMeans(ws);
    assert |vs| == |multiset(vs)| == |ws|;
    if HasDominator(vs) {
      var k: nat :| IsDominator(vs, k);
      var j := DominatorMoves(vs, ws, k);
    } else if HasDominator(ws) {
      var k: nat :| IsDominator(ws, k);
      var j := DominatorMoves(ws, vs, k);
    } else if vs != [] {
      NoDecision(vs, 0);
      NoDecision(ws, 0);
    }
  }

  /** The first element of a sequence, found in any rearrangement of it. */
  lemma TakeOut<T>(a: seq<T>, b: seq<T>) returns (before: seq<T>, after: seq<T>)
    requires a != [] && multiset(a) == multiset(b)
    ensures b == before + ([a[0]] + after)
    ensures multiset(a[1..]) == multiset(before + after)
  {
    var i := Position(b, a[0], a);
    before, after := b[..i], b[i + 1..];
    Around(b, i);
    Around(a, 0);
    Without(before, a[0], after);
    Without(a[..0], a[0], a[1..]);
    assert a[..0] + a[1..] == a[1..];
    Cancel(multiset([a[0]]), multiset(a[1..]), multiset(before + after));
  }

  lemma Position<T>(b: seq<T>, x: T, a: seq<T>) returns (i: nat)
    requires x in a && multiset(a) == multiset(b)
    ensures i < |b| && b[i] == x
  {
    assert x in multiset(b);
    i :| i < |b| && b[i] == x;
  }

  lemma Around<T>(b: seq<T>, i: nat)
    requires i < |b|
    ensures b == b[..i] + ([b[i]] + b[i + 1..])
  {
  }

  lemma Without<T>(before: seq<T>, x: T, after: seq<T>)
    ensures multiset(before + ([x] + after)) == multiset([x]) + multiset(before + after)
  {
  }

  lemma Cancel<T>(one: multiset<T>, x: multiset<T>, y: multiset<T>)
    requires one + x == one + y
    ensures x == y
  {
    assert x == (one + x) - one;
    assert y == (one + y) - one;
  }

  lemma {:induction false} ViableAppend(a: seq<Candidate>, b: seq<Candidate>, n: nat)
    ensures Viable(a + b, n) == Viable(a, n) + Viable(b, n)
  {
    if a == [] {
      assert a + b == b;
    } else {
      assert (a + b)[0] == a[0] && (a + b)[1..] == a[1..] + b;
      ViableAppend(a[1..], b, n);
    }
  }

  lemma {:induction false} ViableIgnoresOrder(a: seq<Candidate>, b: seq<Candidate>, n: nat)
    requires multiset(a) == multiset(b)
    ensures multiset(Viable(a, n)) == multiset(Viable(b, n))
  {
    hide Score1;
    if a == [] {
      assert |b| == |multiset(b)| == 0;
    } else {
      var c := a[0];
      var before, after := TakeOut(a, b);
      ViableIgnoresOrder(a[1..], before + after, n);
      ViableAppend(before, after, n);
      ViableAppend(before, [c] + after, n);
      var one, x, y := Score1(c, n), Viable(before, n), Viable(after, n);
      assert ([c] + after)[1..] == after;
      assert Viable([c] + after, n) == one + y;
      assert multiset(Viable(a, n)) == multiset(one) + multiset(Viable(a[1..], n));
      assert multiset(x + (one + y)) == multiset(one) + multiset(x + y);
    }
  }

  lemma {:induction false} RescoredAppend(a: seq<Scored>, b: seq<Scored>, domains: seq<Option<IntDomain>>)
    ensures Rescored(a + b, domains) == Rescored(a, domains) + Rescored(b, domains)
  {
    if a == [] {
      assert a + b == b;
    } else {
      assert (a + b)[0] == a[0] && (a + b)[1..] == a[1..] + b;
      RescoredAppend(a[1..], b, domains);
    }
  }

  lemma {:induction false} RescoredIgnoresOrder(a: seq<Scored>, b: seq<Scored>, domains: seq<Option<IntDomain>>)
    requires multiset(a) == multiset(b)
    ensures multiset(Rescored(a, domains)) == multiset(Rescored(b, domains))
  {
    hide Rescore;
    if a == [] {
      assert |b| == |multiset(b)| == 0;
    } else {
      var c := a[0];
      var before, after := TakeOut(a, b);
      RescoredIgnoresOrder(a[1..], before + after, domains);
      RescoredAppend(before, after, domains);
      RescoredAppend(before, [c] + after, domains);
      var one, x, y := Rescore(c, domains), Rescored(before, domains), Rescored(after, domains);
      assert ([c] + after)[1..] == after;
      assert Rescored([c] + after, domains) == one + y;
      assert multiset(Rescored(a, domains)) == multiset(one) + multiset(Rescored(a[1..], domains));
      assert multiset(x + (one + y)) == multiset(one) + multiset(x + y);
    }
  }

  /** The answer does not depend on the order in which candidates were declared or found. */
  lemma PickIgnoresOrder(a: seq<Candidate>, b: seq<Candidate>, domains: seq<Option<IntDomain>>)
    requires multiset(a) == multiset(b)
    ensures PickSpec(a, domains) == PickSpec(b, domains)
  {
    var vs, ws := Viable(a, |domains|), Viable(b, |domains|);
    ViableIgnoresOrder(a, b, |domains|);
    RescoredIgnoresOrder(vs, ws, domains);
    var rs, qs := Rescored(vs, domains), Rescored(ws, domains);
    assert |vs| == |multiset(vs)| == |multiset(ws)| == |ws|;
    assert |rs| == |multiset(rs)| == |multiset(qs)| == |qs|;
    DecideIgnoresOrder(vs, ws);
    DecideIgnoresOrder(rs, qs);
  }

  /** The picker's contract: the dominator of the pool, or an ambiguity, or no candidate. */
  lemma PickMeans(cs: seq<Candidate>, domains: seq<Option<IntDomain>>)
    ensures var pool := Pool(Viable(cs, |domains|), domains);
            var pick := PickSpec(cs, domains);
            && (pick.decl.Some? <==> HasDominator(pool))
            && (forall k: nat :: IsDominator(pool, k) ==> pick.decl == Some(pool[k].decl) && !pick.ambiguous)
            && (pick.ambiguous <==> |pool| >= 2 && !HasDominator(pool))
            && (pick == Pick(None, false) <==> Viable(cs, |domains|) == [])
  {
    var pool := Pool(Viable(cs, |domains|), domains);
    DecideMeans(pool);
    if |pool| == 1 { assert IsDominator(pool, 0); }
  }

  // ------------------------------------------------------------------ what the integer stage guarantees

  /** `v` takes every integer argument by value in a formal that holds its whole domain, unless it matched already. */
  predicate TakesDomains(v: Scored, domains: seq<Option<IntDomain>>) {
    && |v.scores| == |domains| <= |v.formals|
    && forall i :: 0 <= i < |domains| && domains[i].Some? && !Settled(v.scores[i]) ==>
         && !v.formals[i].mutableRef
         && v.formals[i].integer.Some?
         && DomainFits(domains[i].value, v.formals[i].integer.value)
  }

  lemma {:induction false} RescoredTakesDomains(vs: seq<Scored>, domains: seq<Option<IntDomain>>, v: Scored)
    requires v in Rescored(vs, domains)
    ensures TakesDomains(v, domains)
    ensures exists w :: w in vs && v.decl == w.decl && v in Rescore(w, domains)
  {
    if v in Rescore(vs[0], domains) {
      assert vs[0] in vs;
      assert forall i :: 0 <= i < |domains| ==>
          Rescore1(domains[i], vs[0].formals[i], vs[0].scores[i]) == Some(v.scores[i]);
    } else {
      RescoredTakesDomains(vs[1..], domains, v);
      var w :| w in vs[1..] && v.decl == w.decl && v in Rescore(w, domains);
      assert w in vs;
    }
  }

  /** If the stage decides, its winner is a viable candidate whose integer formals hold the whole domains. */
  lemma StageWinnerTakesDomains(cs: seq<Candidate>, domains: seq<Option<IntDomain>>)
    requires var vs := Viable(cs, |domains|);
             |vs| >= 2 && SeesInteger(domains) && Rescored(vs, domains) != []
    requires PickSpec(cs, domains).decl.Some?
    ensures exists v :: v in Rescored(Viable(cs, |domains|), domains)
              && PickSpec(cs, domains).decl == Some(v.decl) && TakesDomains(v, domains)
  {
    hide Viable, Rescored, Decide, TakesDomains, Rescore, IsDominator;
    var pool := Rescored(Viable(cs, |domains|), domains);
    DecideMeans(pool);
    var k: nat :| IsDominator(pool, k);
    DominatorInside(pool, k);
    assert pool[k] in pool;
    RescoredTakesDomains(Viable(cs, |domains|), domains, pool[k]);
  }

  lemma DominatorInside(vs: seq<Scored>, k: nat)
    requires IsDominator(vs, k)
    ensures k < |vs|
  {
  }

  // ------------------------------------------------------------------ one argument

  /** One by-value integer formal, not already an exact or equal match. */
  predicate Open(v: Scored) {
    && |v.scores| == 1 && |v.formals| >= 1
    && !v.formals[0].mutableRef && v.formals[0].integer.Some? && !Settled(v.scores[0])
  }

  /** `a` is the better home of the domain: narrower, or of the preferred sign at the same width. */
  predicate Tighter(d: IntDomain, a: Carrier, b: Carrier) {
    a.bits < b.bits || (a.bits == b.bits && a != b && a.Signed? == d.preferSigned)
  }

  lemma TighterIsTotal(d: IntDomain, a: Carrier, b: Carrier)
    ensures Less(DomainScore(d, a), DomainScore(d, b)) <==> Tighter(d, a, b)
    ensures a == b || Tighter(d, a, b) || Tighter(d, b, a)
  {
  }

  function HomeCarrier(v: Scored): Carrier
    requires Open(v)
  {
    v.formals[0].integer.value
  }

  predicate DistinctFormals(vs: seq<Scored>)
    requires forall v :: v in vs ==> Open(v)
  {
    forall i, j :: 0 <= i < j < |vs| ==> HomeCarrier(vs[i]) != HomeCarrier(vs[j])
  }

  /** What the stage makes of one open candidate. */
  lemma RescoreOpen(v: Scored, d: IntDomain)
    requires Open(v)
    ensures Rescore(v, [Some(d)]) ==
            if DomainFits(d, HomeCarrier(v)) then [v.(scores := [DomainScore(d, HomeCarrier(v))])] else []
  {
    if DomainFits(d, HomeCarrier(v)) {
      assert Rescorable(v, [Some(d)]);
      assert Rescore(v, [Some(d)])[0].scores == [DomainScore(d, HomeCarrier(v))];
    } else {
      assert Rescore1(Some(d), v.formals[0], v.scores[0]).None?;
    }
  }

  /** `v` holds the domain and is tighter than every other candidate that does. */
  predicate Tightest(vs: seq<Scored>, k: nat, d: IntDomain)
    requires forall v :: v in vs ==> Open(v)
  {
    && k < |vs| && DomainFits(d, HomeCarrier(vs[k]))
    && forall j :: 0 <= j < |vs| && j != k && DomainFits(d, HomeCarrier(vs[j])) ==>
         Tighter(d, HomeCarrier(vs[k]), HomeCarrier(vs[j]))
  }

  /** Among distinct formals one is tightest, if any holds the domain at all. */
  lemma SomeTightest(vs: seq<Scored>, d: IntDomain) returns (k: nat)
    requires forall v :: v in vs ==> Open(v)
    requires DistinctFormals(vs)
    requires exists v :: v in vs && DomainFits(d, HomeCarrier(v))
    ensures Tightest(vs, k, d)
  {
    hide Open, DomainFits, Tighter;
    var v :| v in vs && DomainFits(d, HomeCarrier(v));
    var first :| 0 <= first < |vs| && vs[first] == v;
    k := first;
    for n := 0 to |vs|
      invariant k < |vs| && DomainFits(d, HomeCarrier(vs[k]))
      invariant forall j :: 0 <= j < n && j != k && DomainFits(d, HomeCarrier(vs[j])) ==>
                  Tighter(d, HomeCarrier(vs[k]), HomeCarrier(vs[j]))
    {
      if n != k && DomainFits(d, HomeCarrier(vs[n])) {
        assert HomeCarrier(vs[n]) != HomeCarrier(vs[k]);
        TighterIsTotal(d, HomeCarrier(vs[k]), HomeCarrier(vs[n]));
        if !Tighter(d, HomeCarrier(vs[k]), HomeCarrier(vs[n])) {
          forall j | 0 <= j < n && DomainFits(d, HomeCarrier(vs[j]))
            ensures Tighter(d, HomeCarrier(vs[n]), HomeCarrier(vs[j]))
          {
            TighterChains(d, HomeCarrier(vs[n]), HomeCarrier(vs[k]), HomeCarrier(vs[j]));
          }
          k := n;
        }
      }
    }
  }

  lemma TighterChains(d: IntDomain, a: Carrier, b: Carrier, c: Carrier)
    requires Tighter(d, a, b) && (b == c || Tighter(d, b, c))
    ensures Tighter(d, a, c)
  {
  }

  /** Members of the rescored list are the fitting candidates, each with its domain score. */
  lemma {:induction false} RescoredOpen(vs: seq<Scored>, d: IntDomain, r: Scored)
    requires forall v :: v in vs ==> Open(v)
    ensures r in Rescored(vs, [Some(d)]) <==>
            exists v :: v in vs && DomainFits(d, HomeCarrier(v)) && r == v.(scores := [DomainScore(d, HomeCarrier(v))])
  {
    if vs != [] {
      RescoreOpen(vs[0], d);
      RescoredOpen(vs[1..], d, r);
      assert forall v :: v in vs <==> v == vs[0] || v in vs[1..];
    }
  }

  /**
   * One argument, distinct by-value integer formals, no exact or equal match: whenever any formal
   * holds the argument's domain the call is unambiguous, and the routine called is the one with
   * the narrowest such formal, of the preferred sign where widths are equal.
   */
  lemma NarrowestFormalWins(vs: seq<Scored>, d: IntDomain)
    requires |vs| >= 2 && forall v :: v in vs ==> Open(v)
    requires DistinctFormals(vs)
    requires exists v :: v in vs && DomainFits(d, HomeCarrier(v))
    ensures exists k: nat :: Tightest(vs, k, d) && Decide(Pool(vs, [Some(d)])) == Pick(Some(vs[k].decl), false)
  {
    var k := SomeTightest(vs, d);
    var r := vs[k].(scores := [DomainScore(d, HomeCarrier(vs[k]))]);
    var pool := Rescored(vs, [Some(d)]);
    RescoredOpen(vs, d, r);
    assert vs[k] in vs;
    assert [Some(d)][0].Some?;
    assert SeesInteger([Some(d)]);
    var h := OnlyPlace(vs, d, k);
    forall j | 0 <= j < |pool| && j != h ensures Dominates(pool[h], pool[j]) {
      RescoredOpen(vs, d, pool[j]);
      assert pool[j] in pool;
      var v :| v in vs && DomainFits(d, HomeCarrier(v)) && pool[j] == v.(scores := [DomainScore(d, HomeCarrier(v))]);
      var i :| 0 <= i < |vs| && vs[i] == v;
      assert i != k;
      TighterIsTotal(d, HomeCarrier(vs[k]), HomeCarrier(v));
      assert Less(pool[h].scores[0], pool[j].scores[0]);
      assert !Less(pool[j].scores[0], pool[h].scores[0]);
    }
    assert IsDominator(pool, h);
    DecideMeans(pool);
  }

  /** The rescored candidate `k` stands at exactly one place of the pool. */
  lemma {:induction false} OnlyPlace(vs: seq<Scored>, d: IntDomain, k: nat) returns (h: nat)
    requires forall v :: v in vs ==> Open(v)
    requires DistinctFormals(vs) && k < |vs| && DomainFits(d, HomeCarrier(vs[k]))
    ensures var pool := Rescored(vs, [Some(d)]);
            var r := vs[k].(scores := [DomainScore(d, HomeCarrier(vs[k]))]);
            h < |pool| && pool[h] == r && forall j :: 0 <= j < |pool| && j != h ==> pool[j].formals != r.formals
  {
    RescoreOpen(vs[0], d);
    var rest := vs[1..];
    var tail := Rescored(rest, [Some(d)]);
    var pool := Rescored(vs, [Some(d)]);
    var first := Rescore(vs[0], [Some(d)]);
    assert pool == first + tail;
    if k == 0 {
      h := 0;
      forall j | 0 < j < |pool| ensures pool[j].formals != vs[0].formals {
        var x := tail[j - 1];
        assert pool[j] == x && x in tail;
        RescoredOpen(rest, d, x);
        var v :| v in rest && DomainFits(d, HomeCarrier(v)) && x == v.(scores := [DomainScore(d, HomeCarrier(v))]);
        var i :| 0 <= i < |rest| && rest[i] == v;
        assert HomeCarrier(vs[0]) != HomeCarrier(vs[i + 1]);
      }
    } else {
      assert forall i, j :: 0 <= i < j < |rest| ==> rest[i] == vs[i + 1] && rest[j] == vs[j + 1];
      assert DistinctFormals(rest);
      var g := OnlyPlace(rest, d, k - 1);
      h := |first| + g;
      assert HomeCarrier(vs[0]) != HomeCarrier(vs[k]);
    }
  }

  // ------------------------------------------------------------------ the choice, in ranks and numbers

  /** At every argument of the call `a` has the smaller rank, or the same rank and no larger distance. */
  ghost predicate NowhereWorse(a: Scored, b: Scored, n: nat)
    requires |a.scores| == |b.scores| == n
  {
    forall i :: 0 <= i < n ==>
      || a.scores[i].rank < b.scores[i].rank
      || (a.scores[i].rank == b.scores[i].rank && a.scores[i].distance <= b.scores[i].distance)
  }

  /** At some argument `a` has the smaller rank, or the same rank and a smaller distance. */
  ghost predicate SomewhereBetter(a: Scored, b: Scored, n: nat)
    requires |a.scores| == |b.scores| == n
  {
    exists i :: 0 <= i < n
      && (|| a.scores[i].rank < b.scores[i].rank
          || (a.scores[i].rank == b.scores[i].rank && a.scores[i].distance < b.scores[i].distance))
  }

  predicate SameWidth(vs: seq<Scored>, n: nat) {
    forall i :: 0 <= i < |vs| ==> |vs[i].scores| == n
  }

  /** Candidate `k` is nowhere worse than any other and somewhere better than each. */
  ghost predicate Best(vs: seq<Scored>, n: nat, k: nat)
    requires SameWidth(vs, n)
  {
    && k < |vs|
    && forall j :: 0 <= j < |vs| && j != k ==> NowhereWorse(vs[k], vs[j], n) && SomewhereBetter(vs[k], vs[j], n)
  }

  lemma DominatesInNumbers(a: Scored, b: Scored, n: nat)
    requires |a.scores| == |b.scores| == n
    ensures Dominates(a, b) <==> NowhereWorse(a, b, n) && SomewhereBetter(a, b, n)
  {
    if NowhereWorse(a, b, n) && SomewhereBetter(a, b, n) {
      var i :| 0 <= i < n
        && (|| a.scores[i].rank < b.scores[i].rank
            || (a.scores[i].rank == b.scores[i].rank && a.scores[i].distance < b.scores[i].distance));
      assert Less(a.scores[i], b.scores[i]);
    }
    if Dominates(a, b) {
      forall i | 0 <= i < n
        ensures || a.scores[i].rank < b.scores[i].rank
                || (a.scores[i].rank == b.scores[i].rank && a.scores[i].distance <= b.scores[i].distance)
      {
        assert !Less(b.scores[i], a.scores[i]);
      }
    }
  }

  lemma BestIsDominator(vs: seq<Scored>, n: nat, k: nat)
    requires SameWidth(vs, n)
    ensures Best(vs, n, k) <==> IsDominator(vs, k)
  {
    hide Dominates, NowhereWorse, SomewhereBetter;
    forall j | 0 <= j < |vs| && k < |vs|
      ensures Dominates(vs[k], vs[j]) <==> NowhereWorse(vs[k], vs[j], n) && SomewhereBetter(vs[k], vs[j], n)
    {
      DominatesInNumbers(vs[k], vs[j], n);
    }
  }

  lemma {:induction false} ViableWidth(cs: seq<Candidate>, n: nat)
    ensures SameWidth(Viable(cs, n), n)
  {
    if cs != [] {
      ScoredWidth(cs[0], n);
      ViableWidth(cs[1..], n);
      hide Score1;
    }
  }

  lemma {:induction false} RescoredWidth(vs: seq<Scored>, domains: seq<Option<IntDomain>>)
    ensures SameWidth(Rescored(vs, domains), |domains|)
  {
    if vs != [] { RescoredWidth(vs[1..], domains); }
  }

  lemma PoolWidth(cs: seq<Candidate>, domains: seq<Option<IntDomain>>)
    ensures SameWidth(Pool(Viable(cs, |domains|), domains), |domains|)
  {
    ViableWidth(cs, |domains|);
    RescoredWidth(Viable(cs, |domains|), domains);
    hide Viable, Rescored;
  }

  /** The declaration picked is a best one of the pool, and a best one is picked. */
  lemma PickIsBest(cs: seq<Candidate>, domains: seq<Option<IntDomain>>)
    ensures SameWidth(Pool(Viable(cs, |domains|), domains), |domains|)
    ensures var pool, pick := Pool(Viable(cs, |domains|), domains), PickSpec(cs, domains);
            && (pick.decl.Some? <==> exists k: nat :: Best(pool, |domains|, k))
            && (forall k: nat :: Best(pool, |domains|, k) ==> pick == Pick(Some(pool[k].decl), false))
  {
    PoolWidth(cs, domains);
    PickMeans(cs, domains);
    hide Viable, PickSpec, Pool, IsDominator, Best;
    var pool := Pool(Viable(cs, |domains|), domains);
    forall k: nat ensures Best(pool, |domains|, k) <==> IsDominator(pool, k) {
      BestIsDominator(pool, |domains|, k);
    }
    if HasDominator(pool) {
      var k: nat :| IsDominator(pool, k);
      assert Best(pool, |domains|, k);
    }
    if k: nat :| Best(pool, |domains|, k) {
      assert IsDominator(pool, k);
    }
  }

  /** `v` is candidate `c` as it takes the call: arity, defaults for the rest, every argument convertible. */
  predicate TakesCall(c: Candidate, n: nat, v: Scored) {
    && c.decl == Some(v.decl) && c.formals == v.formals && n <= |c.formals| && |v.scores| == n
    && (forall i :: n <= i < |c.formals| ==> c.formals[i].hasDefault)
    && (forall i :: 0 <= i < n ==> v.scores[i] == c.formals[i].conversion && c.formals[i].conversion.rank != 255)
  }

  lemma {:induction false} ViableMeans(cs: seq<Candidate>, n: nat, v: Scored)
    ensures v in Viable(cs, n) <==> exists i :: 0 <= i < |cs| && TakesCall(cs[i], n, v)
  {
    if cs != [] {
      ViableMeans(cs[1..], n, v);
      Score1Means(cs[0], n, v);
      hide Score1, TakesCall;
      if i :| 0 <= i < |cs| && TakesCall(cs[i], n, v) {
        if i > 0 { assert cs[i] == cs[1..][i - 1]; }
      }
      if i :| 0 <= i < |cs[1..]| && TakesCall(cs[1..][i], n, v) {
        assert cs[i + 1] == cs[1..][i];
      }
    }
  }

  lemma Score1Means(c: Candidate, n: nat, v: Scored)
    ensures v in Score1(c, n) <==> TakesCall(c, n, v)
  {
    if TakesCall(c, n, v) { assert v.scores == ScoresOf(c, n); }
  }

  /** The integer stage keeps scores without a domain or at ranks 1 and 2; others become rank 5 by width and sign. */
  predicate RescoredTo(domain: Option<IntDomain>, formal: Formal, before: Score, after: Score) {
    if domain.None? || before.rank == 1 || before.rank == 2 then after == before
    else
      && !formal.mutableRef && formal.integer.Some?
      && (forall x :: domain.value.low <= x <= domain.value.high ==> InRange(formal.integer.value, x))
      && after.rank == 5
      && after.distance == 2 * formal.integer.value.bits +
           if domain.value.preferSigned == formal.integer.value.Signed? then 0 else 1
  }

  lemma Rescore1Means(domain: Option<IntDomain>, formal: Formal, before: Score, after: Score)
    requires domain.Some? ==> domain.value.low <= domain.value.high
    ensures Rescore1(domain, formal, before) == Some(after) <==> RescoredTo(domain, formal, before, after)
  {
    if domain.Some? && formal.integer.Some? { DomainFitsMeans(domain.value, formal.integer.value); }
    hide DomainFits;
  }

  /** Candidate by candidate and argument by argument, that is the whole of the integer stage. */
  lemma {:induction false} RescoredMeans(vs: seq<Scored>, domains: seq<Option<IntDomain>>, r: Scored)
    requires forall i :: 0 <= i < |domains| && domains[i].Some? ==> domains[i].value.low <= domains[i].value.high
    ensures r in Rescored(vs, domains) <==> exists k :: 0 <= k < |vs| && RescoredFrom(vs[k], domains, r)
  {
    if vs != [] {
      RescoredMeans(vs[1..], domains, r);
      RescoreMeans(vs[0], domains, r);
      hide Rescore, RescoredFrom;
      if k :| 0 <= k < |vs| && RescoredFrom(vs[k], domains, r) {
        if k > 0 { assert vs[k] == vs[1..][k - 1]; }
      }
      if k :| 0 <= k < |vs[1..]| && RescoredFrom(vs[1..][k], domains, r) {
        assert vs[k + 1] == vs[1..][k];
      }
    }
  }

  predicate RescoredFrom(v: Scored, domains: seq<Option<IntDomain>>, r: Scored) {
    && r.decl == v.decl && r.formals == v.formals
    && |r.scores| == |v.scores| == |domains| <= |v.formals|
    && forall i :: 0 <= i < |domains| ==> RescoredTo(domains[i], v.formals[i], v.scores[i], r.scores[i])
  }

  lemma RescoreMeans(v: Scored, domains: seq<Option<IntDomain>>, r: Scored)
    requires forall i :: 0 <= i < |domains| && domains[i].Some? ==> domains[i].value.low <= domains[i].value.high
    ensures r in Rescore(v, domains) <==> RescoredFrom(v, domains, r)
  {
    hide Rescore1, RescoredTo;
    if |r.scores| == |v.scores| == |domains| <= |v.formals| {
      forall i | 0 <= i < |domains|
        ensures Rescore1(domains[i], v.formals[i], v.scores[i]) == Some(r.scores[i]) <==>
                RescoredTo(domains[i], v.formals[i], v.scores[i], r.scores[i])
      {
        Rescore1Means(domains[i], v.formals[i], v.scores[i], r.scores[i]);
      }
    }
    if RescoredFrom(v, domains, r) {
      assert r.scores == Rescore(v, domains)[0].scores;
    }
  }
}
