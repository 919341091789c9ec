/** Constant expressions, the folder's result on them, and when it is exact. */
module ConstExprs {
  import opened Wrappers
  import opened Carriers
  import opened ConstInts

  datatype Expr =
    | Literal(n: UInt64)
    | Ordinal(value: Int64)
    | Plus(operand: Expr)
    | Negate(operand: Expr)
    | Complement(operand: Expr)
    | Binary(op: Op, left: Expr, right: Expr)
    | Cast(target: Carrier, operand: Expr)
    | Name(name: string)
    | Variable(name: string, carrier: Carrier)

  /** Apply a binary step to two evaluated operands; both have been evaluated, flags included. */
  function Combine(op: Op, l: Folded, r: Folded): Folded {
    if l.result.None? || r.result.None? then Folded(None, l.overflow || r.overflow)
    else
      var f := FoldBinary(op, l.result.value, r.result.value);
      Folded(f.result, l.overflow || r.overflow || f.overflow)
  }

  function ApplyNegate(f: Folded): Folded {
    if f.result.None? then f
    else
      var g := FoldNegate(f.result.value);
      Folded(g.result, f.overflow || g.overflow)
  }

  function ApplyCast(target: Carrier, f: Folded): Folded {
    if f.result.None? then f else Folded(Some(Convert(f.result.value, target)), f.overflow)
  }

  /** The folder on an expression none of whose names is a constant. */
  function Fold(e: Expr): Folded {
    match e
    case Literal(n) => Folded(Some(FromLiteral(n)), false)
    case Ordinal(value) => Folded(Some(FromValue(value)), false)
    case Plus(a) => Fold(a)
    case Negate(a) => ApplyNegate(Fold(a))
    case Complement(a) => Folded(None, Fold(a).overflow)
    case Binary(op, l, r) => Combine(op, Fold(l), Fold(r))
    case Cast(target, a) => ApplyCast(target, Fold(a))
    case Name(_) => Folded(None, false)
    case Variable(_, _) => Folded(None, false)
  }

  type Valuation = string -> int

  /** Mathematical value over unbounded integers; a cast keeps its modular meaning. */
  function Value(e: Expr, vars: Valuation): Option<int> {
    match e
    case Literal(n) => Some(n)
    case Ordinal(value) => Some(value)
    case Plus(a) => Value(a, vars)
    case Negate(a) =>
      var x := Value(a, vars);
      if x.None? then None else Some(-x.value)
    case Complement(a) => None
    case Binary(op, l, r) =>
      var x, y := Value(l, vars), Value(r, vars);
      if x.None? || y.None? then None else Exact(op, x.value, y.value)
    case Cast(target, a) =>
      var x := Value(a, vars);
      if x.None? then None else Some(Wrap(target, x.value))
    case Name(_) => None
    case Variable(name, _) => Some(vars(name))
  }

  /** Every node is a place where the folder can be exact. */
  predicate Foldable(e: Expr, vars: Valuation) {
    match e
    case Literal(_) => true
    case Ordinal(_) => true
    case Plus(a) => Foldable(a, vars)
    case Negate(a) => Foldable(a, vars) && Value(a, vars).Some? && Abs(Value(a, vars).value) < TWO_TO_63
    case Cast(target, a) => Foldable(a, vars) && Value(e, vars).Some? && (Whole(target) || Value(e, vars).value >= 0)
    case Binary(_, l, r) =>
      && Foldable(l, vars) && Foldable(r, vars)
      && Value(e, vars).Some? && Representable(Value(e, vars).value)
    case _ => false
  }

  /** Conversions to these carriers keep the pattern and the value in agreement. */
  predicate Whole(target: Carrier) {
    target.Unsigned? || target.bits == 64
  }

  /** Some node with foldable operands and a nonzero divisor leaves the representable range. */
  predicate Overflows(e: Expr, vars: Valuation) {
    match e
    case Plus(a) => Overflows(a, vars)
    case Cast(_, a) => Overflows(a, vars)
    case Binary(_, l, r) =>
      || Overflows(l, vars) || Overflows(r, vars)
      || (&& Foldable(l, vars) && Foldable(r, vars)
          && Value(e, vars).Some? && !Representable(Value(e, vars).value))
    case _ => false
  }

  /** Literals, ordinals, variables, unary plus, the five operators, and casts that keep the views together. */
  predicate Plain(e: Expr) {
    match e
    case Literal(_) => true
    case Ordinal(_) => true
    case Plus(a) => Plain(a)
    case Binary(_, l, r) => Plain(l) && Plain(r)
    case Cast(target, a) => Whole(target) && Plain(a)
    case Variable(_, _) => true
    case _ => false
  }

  ghost predicate Holds(f: Folded, x: Option<int>) {
    && f.result.Some? && x.Some?
    && Ok(f.result.value) && Readable(f.result.value)
    && Meaning(f.result.value) == x.value
  }

  lemma CombineHolds(op: Op, l: Folded, x: Option<int>, r: Folded, y: Option<int>)
    requires Holds(l, x) && Holds(r, y)
    ensures var exact := Exact(op, x.value, y.value);
            var f := Combine(op, l, r);
            && (exact.Some? && Representable(exact.value) ==> Holds(f, exact))
            && (exact.None? || !Representable(exact.value) ==> f.result.None?)
            && (f.overflow <==> l.overflow || r.overflow || (exact.Some? && !Representable(exact.value)))
  {
    hide FoldBinary, Exact;
    FoldBinaryExact(op, l.result.value, r.result.value);
  }

  /** Folding is exact on every expression all of whose nodes stay in the folder's domain. */
  lemma {:induction false} FoldExact(e: Expr, vars: Valuation)
    requires Foldable(e, vars)
    ensures Holds(Fold(e), Value(e, vars)) && Fold(e).overflow == false
  {
    hide Exact, FoldNegate, Convert, Wrap;
    match e
    case Literal(n) => FromLiteralOk(n);
    case Ordinal(value) => FromValueOk(value);
    case Plus(a) => FoldExact(a, vars);
    case Negate(a) =>
      FoldExact(a, vars);
      FoldNegateExact(Fold(a).result.value);
    case Cast(target, a) =>
      FoldExact(a, vars);
      CastHolds(Fold(a).result.value, target);
    case Binary(op, l, r) =>
      FoldExact(l, vars);
      FoldExact(r, vars);
      CombineHolds(op, Fold(l), Value(l, vars), Fold(r), Value(r, vars));
  }

  lemma CastHolds(c: ConstInt, target: Carrier)
    requires Ok(c) && Readable(c)
    ensures Readable(Convert(c, target))
    ensures Meaning(Convert(c, target)) == Wrap(target, Meaning(c))
    ensures Ok(Convert(c, target)) <==> Whole(target) || Wrap(target, Meaning(c)) >= 0
  {
    hide Convert;
    ConvertReads(c, target);
    ConvertExact(c, target);
    WrapConverts(target, Meaning(c));
  }

  /**
   * On plain expressions the condition is exact: the folder gives a constant, the right one, if
   * and only if every node is representable, and raises the flag if and only if some node is not.
   */
  lemma {:induction false} FoldPlain(e: Expr, vars: Valuation)
    requires Plain(e)
    ensures Fold(e).result.Some? <==> Foldable(e, vars)
    ensures Foldable(e, vars) ==> Holds(Fold(e), Value(e, vars))
    ensures Fold(e).overflow <==> Overflows(e, vars)
  {
    hide Exact, FoldBinary, Convert, Wrap;
    match e
    case Literal(n) => FromLiteralOk(n);
    case Ordinal(value) => FromValueOk(value);
    case Plus(a) => FoldPlain(a, vars);
    case Cast(target, a) =>
      FoldPlain(a, vars);
      if Foldable(a, vars) { CastHolds(Fold(a).result.value, target); }
    case Variable(_, _) =>
    case Binary(op, l, r) =>
      FoldPlain(l, vars);
      FoldPlain(r, vars);
      if Foldable(l, vars) && Foldable(r, vars) {
        CombineHolds(op, Fold(l), Value(l, vars), Fold(r), Value(r, vars));
      }
  }

  /** An overflow is never silent: whatever the expression, a raised flag comes without a constant. */
  lemma {:induction false} FlaggedMeansNothing(e: Expr)
    ensures Fold(e).overflow ==> Fold(e).result.None?
  {
    match e
    case Plus(a) => FlaggedMeansNothing(a);
    case Negate(a) => FlaggedMeansNothing(a);
    case Complement(a) =>
    case Cast(_, a) => FlaggedMeansNothing(a);
    case Binary(op, l, r) =>
      FlaggedMeansNothing(l);
      FlaggedMeansNothing(r);
      if Fold(l).result.Some? && Fold(r).result.Some? {
        FoldBinaryComputes(op, Fold(l).result.value, Fold(r).result.value);
      }
    case _ =>
  }

  /** The flag tells of an operation: literals, ordinals, variables and unresolved names never raise it. */
  lemma LeavesRaiseNoFlag(e: Expr)
    requires e.Literal? || e.Ordinal? || e.Variable? || e.Name?
    ensures !Fold(e).overflow
    ensures e.Variable? || e.Name? ==> Fold(e).result.None?
  {
  }
}
