/**
  Overflow-checked expressions as wholes: for given operand values exactly when every node is right, and,
  from intervals alone, when all nodes are right whatever the values.
 */
module CheckedTrees {
  import opened Wrappers
  import opened Carriers
  import opened ConstInts
  import opened ConstExprs
  import opened ArithmeticCarriers

  // ------------------------------------------------------------------ one node

  /** A value that comes back is the exact one; raising is always allowed. */
  predicate Honest(out: Outcome, exact: Option<int>) {
    out.Value? ==> exact == Some(out.value)
  }

  /** What a signed 64-bit carrier reads where an unsigned 64-bit operand stands. */
  function Misread(x: int): int {
    if x >= TWO_TO_63 then x - TWO_TO_64 else x
  }

  /**
   * When a node is honest, from its carrier and the exact values of its operands. An unsigned carrier
   * reduces silently, so the exact result must lie in it; a signed one is honest unless it misreads
   * an operand, and then only if the misread result is raised or happens to be the same.
   */
  predicate NodeRight(op: Op, c: Carrier, a: int, b: int) {
    || (Divides(op) && b == 0)
    || if c.Unsigned? && !Divides(op) then InRange(c, Exact(op, a, b).value)
       else if InRange(c, a) && InRange(c, b) then true
       else MisreadRight(op, a, b)
  }

  /** One operand is 2^63 or more, the other fits a signed 64-bit carrier. */
  predicate MisreadRight(op: Op, a: int, b: int)
    requires Divides(op) ==> b != 0
  {
    match op
    case Add => a + b < TWO_TO_63
    case Sub => if a >= TWO_TO_63 then a - b < TWO_TO_63 else a - b >= -TWO_TO_63
    case Mul => a == 0 || b == 0 || !InRange(Signed(64), Misread(a) * Misread(b))
    case Div =>
      if a >= TWO_TO_63 then a == TWO_TO_63 && b == -1
      else Abs(a) < TWO_TO_64 - b || (a == -TWO_TO_63 && b == TWO_TO_64 - 1)
    case Mod =>
      if a >= TWO_TO_63 then (TWO_TO_64 - a) % Abs(b) == 0 && a % Abs(b) == 0
      else Abs(a) < TWO_TO_64 - b || (a == -TWO_TO_63 && b == TWO_TO_63)
  }

  /** An operand outside its carrier is one unsigned 64-bit operand beside a signed one, read as signed 64-bit. */
  predicate OneMisread(c: Carrier, a: int, b: int) {
    && c == Signed(64)
    && ((TWO_TO_63 <= a < TWO_TO_64 && InRange(c, b)) || (TWO_TO_63 <= b < TWO_TO_64 && InRange(c, a)))
  }

  lemma BoundReads(op: Op, x: Operand, y: Operand, ptr: PointerBits, a: int, b: int)
    requires Possible(x, a) && Possible(y, b)
    ensures var c := BoundCarrier(op, x, y, ptr);
            || (InRange(c, a) && InRange(c, b))
            || OneMisread(c, a, b)
            || (c.Unsigned? && !Divides(op))
  {
    if Divides(op) {
      DivisionReads(x, y, ptr, a, b);
    } else {
      ArithmeticReads(op, x.carrier, y.carrier, ptr, a, b);
    }
  }

  lemma ArithmeticReads(op: Op, l: Carrier, r: Carrier, ptr: PointerBits, a: int, b: int)
    requires InRange(l, a) && InRange(r, b)
    ensures var c := ArithmeticCarrier(op, l, r, ptr);
            c.Signed? ==> (InRange(c, a) && InRange(c, b)) || OneMisread(c, a, b)
  {
  }

  lemma DivisionReads(x: Operand, y: Operand, ptr: PointerBits, a: int, b: int)
    requires Possible(x, a) && Possible(y, b)
    ensures var c := DivisionCarrier(x, y, ptr);
            (InRange(c, a) && InRange(c, b)) || OneMisread(c, a, b)
  {
    AdaptedHolds(x, y, a);
    AdaptedHolds(y, x, b);
    hide Adapted, Possible;
  }

  lemma SumResidue(a: int, b: int, m: int)
    requires m > 0
    ensures (a % m + b % m) % m == (a + b) % m
    ensures (a % m - b % m) % m == (a - b) % m
  {
    DivMod(a, m);
    DivMod(b, m);
    var p, q, r, s := a / m, b / m, a % m, b % m;
    DivMod(r + s, m);
    DivMod(r - s, m);
    assert p * m + q * m + ((r + s) / m) * m == (p + q + (r + s) / m) * m;
    assert p * m - q * m + ((r - s) / m) * m == (p - q + (r - s) / m) * m;
    ModUnique(a + b, m, p + q + (r + s) / m, (r + s) % m);
    ModUnique(a - b, m, p - q + (r - s) / m, (r - s) % m);
  }

  lemma ProductResidue(a: int, b: int, m: int)
    requires m > 0
    ensures (a % m * (b % m)) % m == (a * b) % m
  {
    DivMod(a, m);
    DivMod(b, m);
    var p, q, r, s := a / m, b / m, a % m, b % m;
    DivMod(r * s, m);
    var k := p * q * m + p * s + q * r + (r * s) / m;
    SplitProduct(p, r, q, s, m, (r * s) / m, (r * s) % m);
    ModUnique(a * b, m, k, (r * s) % m);
  }

  lemma SplitProduct(p: int, r: int, q: int, s: int, m: int, t: int, u: int)
    requires r * s == t * m + u
    ensures (p * m + r) * (q * m + s) == (p * q * m + p * s + q * r + t) * m + u
  {
    assert (p * m + r) * (q * m + s) == (p * m) * (q * m) + (p * m) * s + r * (q * m) + r * s;
    assert (p * m) * (q * m) == (p * q * m) * m;
    assert (p * m) * s == (p * s) * m && r * (q * m) == (q * r) * m;
  }

  /** An unsigned carrier computes modulo its size: conversion of the operands does not matter. */
  lemma UnsignedReduces(op: Op, c: Carrier, a: int, b: int)
    requires c.Unsigned? && !Divides(op)
    ensures RunNode(op, c, a, b, true) == Outcome.Value(Wrap(c, Exact(op, a, b).value))
  {
    hide Modulus;
    SumResidue(a, b, Modulus(c.bits));
    ProductResidue(a, b, Modulus(c.bits));
  }

  /** A node is honest exactly under its condition, for all values its operands can have. */
  lemma NodeHonestIff(op: Op, x: Operand, y: Operand, ptr: PointerBits, a: int, b: int)
    requires Possible(x, a) && Possible(y, b)
    ensures var c := BoundCarrier(op, x, y, ptr);
            Honest(RunNode(op, c, a, b, true), Exact(op, a, b)) <==> NodeRight(op, c, a, b)
  {
    hide RunNode, Possible, BoundCarrier, MisreadRight;
    var c := BoundCarrier(op, x, y, ptr);
    BoundReads(op, x, y, ptr, a, b);
    if c.Unsigned? && !Divides(op) {
      UnsignedReduces(op, c, a, b);
      hide Exact;
      WrapIsSelfIff(c, Exact(op, a, b).value);
    } else if InRange(c, a) && InRange(c, b) {
      HeldIsHonest(op, c, a, b);
    } else if Divides(op) && b == 0 {
      ByZero(op, c, a);
    } else {
      MisreadHonestIff(op, a, b);
    }
  }

  lemma WrapIsSelfIff(c: Carrier, x: int)
    ensures Wrap(c, x) == x <==> InRange(c, x)
  {
  }

  lemma ByZero(op: Op, c: Carrier, a: int)
    requires Divides(op)
    ensures RunNode(op, c, a, 0, true) == DivideByZero
  {
    WrapIsSelfIff(c, 0);
    hide Wrap;
  }

  /** Operands that the carrier holds: the operation is exact or raises. */
  lemma HeldIsHonest(op: Op, c: Carrier, a: int, b: int)
    requires InRange(c, a) && InRange(c, b) && (c.Signed? || Divides(op))
    ensures Honest(RunNode(op, c, a, b, true), Exact(op, a, b))
    ensures RunNode(op, c, a, b, true) == Ideal(op, c, a, b)
  {
    WrapIsSelfIff(c, a);
    WrapIsSelfIff(c, b);
    hide Wrap;
    if Divides(op) {
      if b != 0 { DivisionStays(c, a, b); }
    } else {
      hide Exact;
      WrapIsSelfIff(c, Exact(op, a, b).value);
    }
    IdealIsExact(op, c, a, b);
  }

  lemma MisreadWraps(x: int)
    requires -TWO_TO_63 <= x < TWO_TO_64
    ensures Wrap(Signed(64), x) == Misread(x)
  {
    if x < 0 { WrapInRange(Signed(64), x); } else { ModUnique(x, TWO_TO_64, 0, x); }
  }

  lemma MisreadHonestIff(op: Op, a: int, b: int)
    requires OneMisread(Signed(64), a, b) && (Divides(op) ==> b != 0)
    ensures Honest(RunNode(op, Signed(64), a, b, true), Exact(op, a, b)) <==> MisreadRight(op, a, b)
  {
    MisreadWraps(a);
    MisreadWraps(b);
    hide Wrap;
    match op
    case Add => MisreadSum(a, b);
    case Sub => MisreadSum(a, b);
    case Mul => MisreadProduct(a, b);
    case Div => MisreadQuotient(a, b);
    case Mod => MisreadRemainder(a, b);
  }

  /** On misread operands the node computes the operator on what it reads. */
  function OnMisread(op: Op, a: int, b: int): Outcome {
    Operate(op, Signed(64), Misread(a), Misread(b), true)
  }

  lemma MisreadSum(a: int, b: int)
    requires OneMisread(Signed(64), a, b)
    ensures Honest(OnMisread(Add, a, b), Some(a + b)) <==> MisreadRight(Add, a, b)
    ensures Honest(OnMisread(Sub, a, b), Some(a - b)) <==> MisreadRight(Sub, a, b)
  {
    WrapIsSelfIff(Signed(64), Misread(a) + Misread(b));
    WrapIsSelfIff(Signed(64), Misread(a) - Misread(b));
    hide Wrap;
  }

  lemma MisreadProduct(a: int, b: int)
    requires OneMisread(Signed(64), a, b)
    ensures Honest(OnMisread(Mul, a, b), Some(a * b)) <==> MisreadRight(Mul, a, b)
  {
    var x, y := Misread(a), Misread(b);
    WrapIsSelfIff(Signed(64), x * y);
    hide Wrap, InRange;
    if a >= TWO_TO_63 { ShiftedFactor(a, b); } else { ShiftedFactor(b, a); }
    assert a * b == b * a && x * y == y * x;
  }

  lemma ShiftedFactor(a: int, b: int)
    ensures (a - TWO_TO_64) * b == a * b <==> b == 0
    ensures b == 0 ==> a * b == 0
    ensures a == 0 ==> a * b == 0
  {
    assert (a - TWO_TO_64) * b == a * b - TWO_TO_64 * b;
  }

  lemma MisreadQuotient(a: int, b: int)
    requires OneMisread(Signed(64), a, b) && b != 0
    ensures Honest(OnMisread(Div, a, b), Some(Quotient(a, b))) <==> MisreadRight(Div, a, b)
  {
    hide Wrap;
    var m, n := Abs(a), Abs(b);
    QuotientBasics(m, n);
    QuotientBasics(Abs(Misread(a)), Abs(Misread(b)));
  }

  lemma QuotientBasics(m: nat, n: nat)
    ensures n > 0 ==> 0 <= m / n <= m && 0 <= m % n < n && m % n <= m
    ensures n > 0 ==> (m < n <==> m / n == 0)
    ensures n > 0 && m < n ==> m % n == m
    ensures n > 0 && m == n ==> m / n == 1 && m % n == 0
  {
    if n > 0 {
      DivMod(m, n);
      if m < n { ModUnique(m, n, 0, m); }
      if m == n { ModUnique(m, n, 1, 0); }
      if m / n > 0 { ScaleUp(1, n, m / n); }
    }
  }

  lemma MisreadRemainder(a: int, b: int)
    requires OneMisread(Signed(64), a, b) && b != 0
    ensures Honest(OnMisread(Mod, a, b), Some(Remainder(a, b))) <==> MisreadRight(Mod, a, b)
  {
    hide Wrap;
    QuotientBasics(Abs(a), Abs(b));
    QuotientBasics(Abs(Misread(a)), Abs(Misread(b)));
    if Abs(b) == 1 { ModUnique(a, 1, a, 0); ModUnique(TWO_TO_64 - a, 1, TWO_TO_64 - a, 0); }
  }

  // ------------------------------------------------------------------ whole expressions, for given values

  /** Every subexpression is honest: none silently comes to another value. */
  predicate AllHonest(e: Expr, vars: Valuation, ptr: PointerBits)
    requires Arithmetic(e)
  {
    && Honest(RunExpr(e, vars, true, ptr), ConstExprs.Value(e, vars))
    && (e.Binary? ==> AllHonest(e.left, vars, ptr) && AllHonest(e.right, vars, ptr))
  }

  /** Every node whose operands come to values is right for those values. */
  predicate NodesRight(e: Expr, vars: Valuation, ptr: PointerBits)
    requires Arithmetic(e)
  {
    e.Binary? ==>
      && NodesRight(e.left, vars, ptr) && NodesRight(e.right, vars, ptr)
      && var x, y := RunExpr(e.left, vars, true, ptr), RunExpr(e.right, vars, true, ptr);
         x.Value? && y.Value? ==> NodeRight(e.op, OperandOf(e, ptr).carrier, x.value, y.value)
  }

  /** What a run leaves is a value its static carrier can have. */
  lemma RunInCarrier(op: Op, c: Carrier, a: int, b: int)
    ensures var out := RunNode(op, c, a, b, true); out.Value? ==> InRange(c, out.value)
  {
    var x, y := Wrap(c, a), Wrap(c, b);
    hide Wrap;
    if Divides(op) && y != 0 { DivisionStays(c, x, y); }
  }

  lemma {:induction false} HonestIsPossible(e: Expr, vars: Valuation, ptr: PointerBits)
    requires Arithmetic(e) && WellTyped(e, vars)
    requires Honest(RunExpr(e, vars, true, ptr), ConstExprs.Value(e, vars)) && RunExpr(e, vars, true, ptr).Value?
    ensures Possible(OperandOf(e, ptr), RunExpr(e, vars, true, ptr).value)
  {
    hide RunNode, Fold, ConstExprs.Value, BoundCarrier;
    FoldedMeansValue(e, vars);
    match e
    case Literal(n) =>
      FromLiteralOk(n);
      LiteralFacts(n, vars);
    case Variable(_, _) =>
    case Binary(op, l, r) =>
      var x, y := RunExpr(l, vars, true, ptr), RunExpr(r, vars, true, ptr);
      RunInCarrier(op, OperandOf(e, ptr).carrier, x.value, y.value);
  }

  /**
   * For given values of its variables an expression is honest throughout exactly if every node is
   * right: the condition on single nodes lifts to whole trees, in both directions.
   */
  lemma {:induction false} TreeHonestIff(e: Expr, vars: Valuation, ptr: PointerBits)
    requires Arithmetic(e) && WellTyped(e, vars)
    ensures AllHonest(e, vars, ptr) <==> NodesRight(e, vars, ptr)
  {
    hide RunNode, Fold, ConstExprs.Value, BoundCarrier, NodeRight, Possible;
    match e
    case Literal(n) => LiteralFacts(n, vars);
    case Variable(_, _) => VariableFacts(e, vars);
    case Binary(op, l, r) =>
      TreeHonestIff(l, vars, ptr);
      TreeHonestIff(r, vars, ptr);
      var x, y := RunExpr(l, vars, true, ptr), RunExpr(r, vars, true, ptr);
      if AllHonest(l, vars, ptr) && AllHonest(r, vars, ptr) && x.Value? && y.Value? {
        HonestIsPossible(l, vars, ptr);
        HonestIsPossible(r, vars, ptr);
        BinaryFacts(op, l, r, vars);
        NodeHonestIff(op, OperandOf(l, ptr), OperandOf(r, ptr), ptr, x.value, y.value);
      }
  }

  // ------------------------------------------------------------------ whatever the values

  /** The integers a run can leave; none if `low > high`. */
  datatype Interval = Interval(low: int, high: int)

  predicate Has(i: Interval, x: int) {
    i.low <= x <= i.high
  }

  predicate Within(i: Interval, c: Carrier) {
    i.low > i.high || (Low(c) <= i.low && i.high <= High(c))
  }

  function Least(a: int, b: int): int {
    if a <= b then a else b
  }

  function Greatest(a: int, b: int): int {
    if a <= b then b else a
  }

  function Clip(i: Interval, c: Carrier): Interval {
    Interval(Greatest(i.low, Low(c)), Least(i.high, High(c)))
  }

  /** The exact results of an operator on operands from two intervals. */
  function Results(op: Op, x: Interval, y: Interval): Interval {
    if x.low > x.high || y.low > y.high then Interval(1, 0)
    else
      match op
      case Add => Interval(x.low + y.low, x.high + y.high)
      case Sub => Interval(x.low - y.high, x.high - y.low)
      case Mul =>
        var a, b, c, d := x.low * y.low, x.low * y.high, x.high * y.low, x.high * y.high;
        Interval(Least(Least(a, b), Least(c, d)), Greatest(Greatest(a, b), Greatest(c, d)))
      case _ =>
        var m := Greatest(Abs(x.low), Abs(x.high));
        Interval(if x.low >= 0 && (y.low >= 0 || op == Mod) then 0 else -m, m)
  }

  function IntervalOf(e: Expr, ptr: PointerBits): Interval
    requires Arithmetic(e)
  {
    match e
    case Literal(n) => Interval(n, n)
    case Variable(_, carrier) => Interval(Low(carrier), High(carrier))
    case Binary(op, l, r) =>
      var c := OperandOf(e, ptr).constant;
      var i := if c.Some? then Interval(Meaning(c.value), Meaning(c.value))
               else Results(op, IntervalOf(l, ptr), IntervalOf(r, ptr));
      Clip(i, OperandOf(e, ptr).carrier)
  }

  /** Unsigned sums and products stay inside their carrier, and every other node's carrier holds its operands. */
  predicate IntervalSafe(e: Expr, ptr: PointerBits)
    requires Arithmetic(e)
  {
    e.Binary? ==>
      && IntervalSafe(e.left, ptr) && IntervalSafe(e.right, ptr)
      && NodeSafe(e.op, OperandOf(e, ptr).carrier, IntervalOf(e.left, ptr), IntervalOf(e.right, ptr))
  }

  predicate NodeSafe(op: Op, c: Carrier, x: Interval, y: Interval) {
    || x.low > x.high || y.low > y.high
    || if c.Unsigned? && !Divides(op) then Within(Results(op, x, y), c) else Within(x, c) && Within(y, c)
  }

  /** A product is between the products of the ends. */
  lemma Corners(a: int, l: int, h: int, k: int)
    requires l <= a <= h
    ensures k >= 0 ==> l * k <= a * k <= h * k
    ensures k <= 0 ==> h * k <= a * k <= l * k
  {
    assert (a - l) * k == a * k - l * k && (h - a) * k == h * k - a * k;
    if k >= 0 {
      ScaleUp(0, a - l, k);
      ScaleUp(0, h - a, k);
    } else {
      ScaleUp(0, a - l, -k);
      ScaleUp(0, h - a, -k);
      assert (a - l) * -k == -((a - l) * k) && (h - a) * -k == -((h - a) * k);
    }
  }

  lemma ProductHolds(x: Interval, y: Interval, a: int, b: int)
    requires Has(x, a) && Has(y, b)
    ensures Has(Results(Mul, x, y), a * b)
  {
    Corners(a, x.low, x.high, b);
    Corners(b, y.low, y.high, x.low);
    Corners(b, y.low, y.high, x.high);
  }

  lemma ResultsHold(op: Op, x: Interval, y: Interval, a: int, b: int)
    requires Has(x, a) && Has(y, b)
    ensures var exact := Exact(op, a, b); exact.Some? ==> Has(Results(op, x, y), exact.value)
  {
    match op
    case Mul => ProductHolds(x, y, a, b);
    case Div => QuotientBasics(Abs(a), Abs(b));
    case Mod => QuotientBasics(Abs(a), Abs(b));
    case _ =>
  }

  /** A safe node on operands from its intervals is the ideal operation. */
  lemma SafeNodeIsIdeal(op: Op, c: Carrier, x: Interval, y: Interval, a: int, b: int)
    requires NodeSafe(op, c, x, y) && Has(x, a) && Has(y, b)
    ensures RunNode(op, c, a, b, true) == Ideal(op, c, a, b)
  {
    hide RunNode, Results;
    if c.Unsigned? && !Divides(op) {
      ResultsHold(op, x, y, a, b);
      UnsignedReduces(op, c, a, b);
      hide Exact;
      WrapIsSelfIff(c, Exact(op, a, b).value);
    } else {
      HeldIsHonest(op, c, a, b);
    }
  }

  /**
   * Under the interval condition checked evaluation gives, for all values of the variables, the exact
   * value or an exception, and it gives the value precisely when every node's carrier holds its own.
   */
  lemma {:induction false} IntervalRunIsExact(e: Expr, vars: Valuation, ptr: PointerBits)
    requires Arithmetic(e) && WellTyped(e, vars) && IntervalSafe(e, ptr)
    ensures var out := RunExpr(e, vars, true, ptr);
            && (out.Value? <==> Contained(e, vars, ptr))
            && (out.Value? ==> ConstExprs.Value(e, vars) == Some(out.value) && Has(IntervalOf(e, ptr), out.value))
  {
    hide RunNode, Fold, ConstExprs.Value, BoundCarrier, NodeSafe, Results;
    match e
    case Literal(n) => LiteralFacts(n, vars);
    case Variable(_, _) => VariableFacts(e, vars);
    case Binary(op, l, r) =>
      IntervalRunIsExact(l, vars, ptr);
      IntervalRunIsExact(r, vars, ptr);
      var x, y := RunExpr(l, vars, true, ptr), RunExpr(r, vars, true, ptr);
      if x.Value? && y.Value? {
        var c := OperandOf(e, ptr).carrier;
        SafeNodeIsIdeal(op, c, IntervalOf(l, ptr), IntervalOf(r, ptr), x.value, y.value);
        BinaryFacts(op, l, r, vars);
        ResultsHold(op, IntervalOf(l, ptr), IntervalOf(r, ptr), x.value, y.value);
        FoldedMeansValue(e, vars);
      }
  }

  /** The ends of an interval are values the operand can have, unless there are none. */
  predicate EndsPossible(i: Interval, x: Operand) {
    i.low <= i.high ==> Possible(x, i.low) && Possible(x, i.high)
  }

  /** The static condition from carriers alone is a special case. */
  lemma {:induction false} SafeIsIntervalSafe(e: Expr, ptr: PointerBits)
    requires Arithmetic(e) && AllSafe(e, ptr)
    ensures IntervalSafe(e, ptr) && EndsPossible(IntervalOf(e, ptr), OperandOf(e, ptr))
  {
    hide Fold, BoundCarrier, NodeSafe, Results, SafePair, Clash;
    match e
    case Literal(n) =>
      FromLiteralOk(n);
      LiteralFacts(n, _ => 0);
    case Variable(_, _) =>
    case Binary(op, l, r) =>
      SafeIsIntervalSafe(l, ptr);
      SafeIsIntervalSafe(r, ptr);
      SafeNode(op, OperandOf(l, ptr), OperandOf(r, ptr), ptr, IntervalOf(l, ptr), IntervalOf(r, ptr));
      FoldedMeansValue(e, _ => 0);
  }

  lemma SafeNode(op: Op, x: Operand, y: Operand, ptr: PointerBits, i: Interval, j: Interval)
    requires EndsPossible(i, x) && EndsPossible(j, y)
    requires if Divides(op) then !Clash(x, y) && !Clash(y, x) else SafePair(op, x.carrier, y.carrier, ptr)
    ensures NodeSafe(op, BoundCarrier(op, x, y, ptr), i, j)
  {
    hide Clash, DivisionCarrier, ArithmeticCarrier, SafePair, Possible, Results, Wrap;
    if i.low <= i.high && j.low <= j.high {
      if Divides(op) {
        NoClashKeeps(x, y, ptr, i.low, j.low);
        NoClashKeeps(x, y, ptr, i.high, j.high);
      } else {
        SafeArithmeticNode(op, x, y, ptr, i, j);
      }
    }
  }

  lemma SafeArithmeticNode(op: Op, x: Operand, y: Operand, ptr: PointerBits, i: Interval, j: Interval)
    requires i.low <= i.high && j.low <= j.high && EndsPossible(i, x) && EndsPossible(j, y)
    requires !Divides(op) && SafePair(op, x.carrier, y.carrier, ptr)
    ensures NodeSafe(op, BoundCarrier(op, x, y, ptr), i, j)
  {
    var c := BoundCarrier(op, x, y, ptr);
    HoldsOperands(op, x.carrier, y.carrier, ptr, i.low, j.low);
    HoldsOperands(op, x.carrier, y.carrier, ptr, i.high, j.high);
    hide ArithmeticCarrier, SafePair, Wrap;
    if c.Unsigned? {
      ProductBounds(i.low, j.low, High(x.carrier), High(y.carrier));
      ProductBounds(i.low, j.high, High(x.carrier), High(y.carrier));
      ProductBounds(i.high, j.low, High(x.carrier), High(y.carrier));
      ProductBounds(i.high, j.high, High(x.carrier), High(y.carrier));
      assert High(x.carrier) * High(y.carrier) <= High(c);
    }
  }

  function Byte(name: string): Expr {
    Variable(name, Unsigned(8))
  }

  lemma SumEquations(l: Expr, r: Expr, ptr: PointerBits)
    requires Arithmetic(l) && Arithmetic(r) && Fold(l).result.None?
    ensures var e := Binary(Add, l, r);
            var c := ArithmeticCarrier(Add, OperandOf(l, ptr).carrier, OperandOf(r, ptr).carrier, ptr);
            && Arithmetic(e) && Fold(e).result.None? && OperandOf(e, ptr) == Operand(c, None)
            && IntervalOf(e, ptr) == Clip(Results(Add, IntervalOf(l, ptr), IntervalOf(r, ptr)), c)
            && (IntervalSafe(e, ptr) <==> IntervalSafe(l, ptr) && IntervalSafe(r, ptr) &&
                                          NodeSafe(Add, c, IntervalOf(l, ptr), IntervalOf(r, ptr)))
            && (AllSafe(e, ptr) <==> AllSafe(l, ptr) && AllSafe(r, ptr) &&
                                     SafePair(Add, OperandOf(l, ptr).carrier, OperandOf(r, ptr).carrier, ptr))
  {
    hide ArithmeticCarrier, SafePair, NodeSafe, Results, FoldBinary;
  }

  lemma ByteFacts(name: string, ptr: PointerBits)
    ensures var e := Byte(name);
            && Arithmetic(e) && Fold(e).result.None? && OperandOf(e, ptr) == Operand(Unsigned(8), None)
            && IntervalOf(e, ptr) == Interval(0, 255) && IntervalSafe(e, ptr) && AllSafe(e, ptr)
  {
  }

  /** The sum of three bytes passes, though its first sum is bound to unsigned 64 bits on a 64-bit target. */
  lemma ThreeBytesStatic(a: string, b: string, c: string, ptr: PointerBits)
    requires ptr == 64
    ensures var e := Binary(Add, Binary(Add, Byte(a), Byte(b)), Byte(c));
            Arithmetic(e) && !AllSafe(e, ptr) && IntervalSafe(e, ptr) && IntervalOf(e, ptr) == Interval(0, 765)
  {
    hide Arithmetic, AllSafe, IntervalSafe, IntervalOf, OperandOf, Fold, Byte;
    ByteFacts(a, ptr);
    ByteFacts(b, ptr);
    ByteFacts(c, ptr);
    SumEquations(Byte(a), Byte(b), ptr);
    SumEquations(Binary(Add, Byte(a), Byte(b)), Byte(c), ptr);
  }

  /** And it is always right: no carrier is left, so nothing is raised. */
  lemma ThreeBytes(a: string, b: string, c: string, vars: Valuation, ptr: PointerBits)
    requires ptr == 64 && WellTyped(Binary(Add, Binary(Add, Byte(a), Byte(b)), Byte(c)), vars)
    ensures var e := Binary(Add, Binary(Add, Byte(a), Byte(b)), Byte(c));
            Arithmetic(e) && RunExpr(e, vars, true, ptr) == Outcome.Value(vars(a) + vars(b) + vars(c))
  {
    BytesRange(a, b, c, vars);
    hide RunNode, OperandOf, Fold, AllSafe, IntervalSafe, IntervalOf, Arithmetic, RunExpr, WellTyped, Byte;
    var ab := Binary(Add, Byte(a), Byte(b));
    ByteFacts(a, ptr);
    ByteFacts(b, ptr);
    ByteFacts(c, ptr);
    SumEquations(Byte(a), Byte(b), ptr);
    SumEquations(ab, Byte(c), ptr);
    ByteRuns(a, vars, ptr);
    ByteRuns(b, vars, ptr);
    ByteRuns(c, vars, ptr);
    SumRuns(Byte(a), Byte(b), vars, ptr);
    ByteSum(vars(a), vars(b));
    SumRuns(ab, Byte(c), vars, ptr);
    ByteSum(vars(a) + vars(b), vars(c));
  }

  lemma BytesRange(a: string, b: string, c: string, vars: Valuation)
    requires WellTyped(Binary(Add, Binary(Add, Byte(a), Byte(b)), Byte(c)), vars)
    ensures 0 <= vars(a) <= 255 && 0 <= vars(b) <= 255 && 0 <= vars(c) <= 255
  {
    assert WellTyped(Byte(a), vars) && WellTyped(Byte(b), vars) && WellTyped(Byte(c), vars);
  }

  lemma ByteRuns(name: string, vars: Valuation, ptr: PointerBits)
    ensures Arithmetic(Byte(name)) && RunExpr(Byte(name), vars, true, ptr) == Outcome.Value(vars(name))
  {
  }

  lemma SumRuns(l: Expr, r: Expr, vars: Valuation, ptr: PointerBits)
    requires Arithmetic(l) && Arithmetic(r)
    requires RunExpr(l, vars, true, ptr).Value? && RunExpr(r, vars, true, ptr).Value?
    ensures var e := Binary(Add, l, r);
            && Arithmetic(e)
            && RunExpr(e, vars, true, ptr) ==
               RunNode(Add, OperandOf(e, ptr).carrier, RunExpr(l, vars, true, ptr).value,
                       RunExpr(r, vars, true, ptr).value, true)
  {
    hide RunNode, OperandOf;
  }

  lemma ByteSum(a: int, b: int)
    ensures 0 <= a <= 510 && 0 <= b <= 255 ==> RunNode(Add, Unsigned(64), a, b, true) == Outcome.Value(a + b)
  {
    UnsignedReduces(Add, Unsigned(64), a, b);
    WrapIsSelfIff(Unsigned(64), a + b);
    hide RunNode, Wrap;
  }
}
