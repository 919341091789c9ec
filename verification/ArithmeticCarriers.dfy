/** Carriers bound to integer operations, and the checked operations the generated code runs on them. */
module ArithmeticCarriers {
  import opened Wrappers
  import opened Carriers
  import opened ConstInts
  import opened ConstExprs

  /** Width of the target's pointers, which is also the width of its default integer. */
  type PointerBits = w: Width | w == 32 || w == 64 witness 32

  function Larger(a: Width, b: Width): Width {
    if a >= b then a else b
  }

  // ------------------------------------------------------------------ carrier selection

  function ArithmeticCarrier(op: Op, l: Carrier, r: Carrier, ptr: PointerBits): Carrier {
    var signed := l.Signed? || r.Signed?;
    if l == Signed(64) || r == Signed(64) then Signed(64)
    else if l == Unsigned(64) || r == Unsigned(64) then Unsigned(64)
    else if ptr == 32 && (l == Unsigned(ptr) || r == Unsigned(ptr)) && (signed || op == Sub) then Signed(64)
    else if signed || op == Sub then Signed(ptr)
    else Unsigned(ptr)
  }

  /** An operand as the binder sees it: its carrier, and its value when it folds. */
  datatype Operand = Operand(carrier: Carrier, constant: Option<ConstInt>)

  /** The constant `x`, if `x` is one, lies in the range of `target`. */
  predicate ConstantFits(x: Operand, target: Carrier) {
    x.constant.Some? && Fits(x.constant.value, target)
  }

  /** The carrier division converts `x` to before the common one is chosen. */
  function Adapted(x: Operand, other: Operand): Carrier {
    if && other.carrier.Unsigned?
       && (|| ConstantFits(x, other.carrier)
           || (x.carrier.Unsigned? && other.carrier.bits >= x.carrier.bits))
    then other.carrier else x.carrier
  }

  function DivisionCarrier(l: Operand, r: Operand, ptr: PointerBits): Carrier {
    var lc, rc := Adapted(l, r), Adapted(r, l);
    var signed := lc.Signed? || rc.Signed?;
    var native := lc == Unsigned(ptr) || rc == Unsigned(ptr);
    if lc.bits == 64 || rc.bits == 64 then (if signed then Signed(64) else Unsigned(64))
    else if ptr == 32 && native && signed then Signed(64)
    else if native then Unsigned(ptr)
    else Signed(ptr)
  }

  function CommonCarrier(l: Carrier, r: Carrier): Carrier {
    if l.Signed? == r.Signed? then
      if l.Signed? then Signed(Larger(l.bits, r.bits)) else Unsigned(Larger(l.bits, r.bits))
    else
      var s := if l.Signed? then l.bits else r.bits;
      var u := if l.Signed? then r.bits else l.bits;
      if s > u then Signed(s)
      else if u < 64 then Signed(if u < 8 then 8 else if u < 16 then 16 else if u < 32 then 32 else 64)
      else Unsigned(64)
  }

  function ComparisonCarrier(l: Operand, r: Operand, ptr: PointerBits): Carrier {
    var lc, rc := l.carrier, r.carrier;
    if lc.Signed? == rc.Signed? && lc.bits < 64 && rc.bits < 64 then CommonCarrier(lc, rc)
    else if lc.Signed? != rc.Signed? && ConstantFits(l, rc) then rc
    else if lc.Signed? != rc.Signed? && ConstantFits(r, lc) then lc
    else ArithmeticCarrier(Add, lc, rc, ptr)
  }

  predicate Divides(op: Op) {
    op == Div || op == Mod
  }

  function BoundCarrier(op: Op, l: Operand, r: Operand, ptr: PointerBits): Carrier {
    if Divides(op) then DivisionCarrier(l, r, ptr) else ArithmeticCarrier(op, l.carrier, r.carrier, ptr)
  }

  // ------------------------------------------------------------------ the checked operations

  /** The value an operation leaves, or the exception it raises instead. */
  datatype Outcome = Value(value: int) | Overflow | DivideByZero

  /** A checked add, subtract or multiply: only signed carriers report that the result was reduced. */
  function Reduce(carrier: Carrier, exact: int, checked: bool): Outcome {
    if checked && carrier.Signed? && !InRange(carrier, exact) then Overflow
    else Outcome.Value(Wrap(carrier, exact))
  }

  function Divide(carrier: Carrier, a: int, b: int, checked: bool): Outcome {
    if b == 0 then DivideByZero
    else if carrier.Signed? && a == Low(carrier) && b == -1 then
      if checked then Overflow else Outcome.Value(a)
    else Outcome.Value(Quotient(a, b))
  }

  function Modulo(carrier: Carrier, a: int, b: int): Outcome {
    if b == 0 then DivideByZero
    else if carrier.Signed? && a == Low(carrier) && b == -1 then Outcome.Value(0)
    else Outcome.Value(Remainder(a, b))
  }

  function Operate(op: Op, carrier: Carrier, a: int, b: int, checked: bool): Outcome {
    match op
    case Add => Reduce(carrier, a + b, checked)
    case Sub => Reduce(carrier, a - b, checked)
    case Mul => Reduce(carrier, a * b, checked)
    case Div => Divide(carrier, a, b, checked)
    case Mod => Modulo(carrier, a, b)
  }

  /** What the generated code does: convert both operands to the carrier, then operate. */
  function RunNode(op: Op, carrier: Carrier, a: int, b: int, checked: bool): Outcome {
    Operate(op, carrier, Wrap(carrier, a), Wrap(carrier, b), checked)
  }

  // ------------------------------------------------------------------ one operation

  /** The ideal checked operation: the exact value if the carrier holds it, an exception otherwise. */
  function Ideal(op: Op, carrier: Carrier, a: int, b: int): Outcome {
    var exact := Exact(op, a, b);
    if exact.None? then DivideByZero
    else if InRange(carrier, exact.value) then Outcome.Value(exact.value)
    else Overflow
  }

  predicate WideUnsigned(c: Carrier) {
    c == Unsigned(64)
  }

  /** The operand pairs on which `+ - *` can be trusted, from the two carriers alone. */
  predicate SafePair(op: Op, l: Carrier, r: Carrier, ptr: PointerBits) {
    && !WideUnsigned(l) && !WideUnsigned(r)
    && !(ptr == 32 && op != Sub && l.Unsigned? && r.Unsigned? && (l.bits == 32 || r.bits == 32))
  }

  /** `x` is unsigned 64-bit, `y` is signed and not a constant that `x`'s carrier holds, and `x` may be large. */
  predicate Clash(x: Operand, y: Operand) {
    && WideUnsigned(x.carrier) && y.carrier.Signed? && !ConstantFits(y, x.carrier)
    && (x.constant.Some? ==> Meaning(x.constant.value) >= TWO_TO_63)
  }

  /** `a` is a value the operand can have when the generated code runs. */
  predicate Possible(x: Operand, a: int) {
    && InRange(x.carrier, a)
    && (x.constant.Some? ==> Readable(x.constant.value) && Meaning(x.constant.value) == a)
  }

  lemma ProductBounds(a: int, b: int, m: int, n: int)
    requires 0 <= a <= m && 0 <= b <= n
    ensures 0 <= a * b <= m * n
  {
    ScaleUp(a, m, b);
    ScaleUp(b, n, m);
  }

  lemma SafePairIsIdeal(op: Op, l: Carrier, r: Carrier, ptr: PointerBits, a: int, b: int)
    requires !Divides(op) && SafePair(op, l, r, ptr) && InRange(l, a) && InRange(r, b)
    ensures var carrier := ArithmeticCarrier(op, l, r, ptr);
            && InRange(carrier, a) && InRange(carrier, b)
            && RunNode(op, carrier, a, b, true) == Ideal(op, carrier, a, b)
  {
    var carrier := ArithmeticCarrier(op, l, r, ptr);
    HoldsOperands(op, l, r, ptr, a, b);
    hide ArithmeticCarrier, Wrap;
    if carrier.Unsigned? && op == Mul {
      ProductBounds(a, b, High(l), High(r));
      assert High(l) * High(r) <= High(carrier);
    }
  }

  lemma HoldsOperands(op: Op, l: Carrier, r: Carrier, ptr: PointerBits, a: int, b: int)
    requires !Divides(op) && SafePair(op, l, r, ptr) && InRange(l, a) && InRange(r, b)
    ensures var carrier := ArithmeticCarrier(op, l, r, ptr);
            && InRange(carrier, a) && InRange(carrier, b)
            && Wrap(carrier, a) == a && Wrap(carrier, b) == b
            && (carrier.Unsigned? ==>
                  && op != Sub && l.Unsigned? && r.Unsigned? && carrier == Unsigned(ptr)
                  && l.bits * 2 <= ptr && r.bits * 2 <= ptr)
  {
  }

  /** Two operand values for which the generated operation silently gives a wrong result. */
  function BadOperands(op: Op, l: Carrier, r: Carrier, ptr: PointerBits): (int, int) {
    var k := if op == Mul then 2 else 1;
    if op == Sub then
      if ArithmeticCarrier(op, l, r, ptr).Unsigned? then (0, 1)
      else if WideUnsigned(l) then (High(l), 1)
      else (0, High(r))
    else if WideUnsigned(l) || (!WideUnsigned(r) && l.bits == 32) then (High(l), k)
    else (k, High(r))
  }

  lemma UnsafePairGoesWrong(op: Op, l: Carrier, r: Carrier, ptr: PointerBits)
    requires !Divides(op) && !SafePair(op, l, r, ptr)
    ensures var (a, b) := BadOperands(op, l, r, ptr);
            && InRange(l, a) && InRange(r, b)
            && var out := RunNode(op, ArithmeticCarrier(op, l, r, ptr), a, b, true);
               out.Value? && Exact(op, a, b) != Some(out.value)
  {
    hide RunNode;
    var (a, b) := BadOperands(op, l, r, ptr);
    var carrier := ArithmeticCarrier(op, l, r, ptr);
    if op == Sub {
      SubtractReduced();
    } else {
      var top := Modulus(carrier.bits) - 1;
      assert (a, b) == (top, if op == Mul then 2 else 1) || (b, a) == (top, if op == Mul then 2 else 1);
      if op == Add { AddReduced(carrier); } else { MulReduced(carrier); }
    }
  }

  lemma AddReduced(c: Carrier)
    requires c.bits >= 32
    ensures RunNode(Add, c, Modulus(c.bits) - 1, 1, true) == Outcome.Value(0)
    ensures RunNode(Add, c, 1, Modulus(c.bits) - 1, true) == Outcome.Value(0)
  {
    TopWraps(c);
    ModUnique(Modulus(c.bits), Modulus(c.bits), 1, 0);
  }

  lemma MulReduced(c: Carrier)
    requires c.bits >= 32
    ensures var m := Modulus(c.bits);
            && RunNode(Mul, c, m - 1, 2, true) == Outcome.Value(if c.Signed? then -2 else m - 2)
            && RunNode(Mul, c, 2, m - 1, true) == Outcome.Value(if c.Signed? then -2 else m - 2)
  {
    var m := Modulus(c.bits);
    TopWraps(c);
    ModUnique(2 * m - 2, m, 1, m - 2);
  }

  lemma TopWraps(c: Carrier)
    ensures Wrap(c, Modulus(c.bits) - 1) == if c.Signed? then -1 else Modulus(c.bits) - 1
  {
    var m := Modulus(c.bits);
    ModUnique(m - 1, m, 0, m - 1);
  }

  lemma SubtractReduced()
    ensures RunNode(Sub, Unsigned(64), 0, 1, true) == Outcome.Value(TWO_TO_64 - 1)
    ensures RunNode(Sub, Signed(64), TWO_TO_64 - 1, 1, true) == Outcome.Value(-2)
    ensures RunNode(Sub, Signed(64), 0, TWO_TO_64 - 1, true) == Outcome.Value(1)
  {
    TopWraps(Signed(64));
    ModUnique(-1, TWO_TO_64, -1, TWO_TO_64 - 1);
  }

  /**
   * Checked `+ - *` on the selected carrier is the ideal operation for all operand values exactly
   * when no operand is unsigned 64-bit and, on a 32-bit target, the operation is not an addition
   * or multiplication of two unsigned operands one of which is native.
   */
  lemma ArithmeticIsExactIff(op: Op, l: Carrier, r: Carrier, ptr: PointerBits)
    requires !Divides(op)
    ensures var carrier := ArithmeticCarrier(op, l, r, ptr);
            SafePair(op, l, r, ptr) <==>
            (forall a, b :: InRange(l, a) && InRange(r, b) ==>
                RunNode(op, carrier, a, b, true) == Ideal(op, carrier, a, b))
  {
    hide RunNode, Ideal, ArithmeticCarrier, BadOperands;
    var carrier := ArithmeticCarrier(op, l, r, ptr);
    if SafePair(op, l, r, ptr) {
      forall a, b | InRange(l, a) && InRange(r, b)
        ensures RunNode(op, carrier, a, b, true) == Ideal(op, carrier, a, b)
      {
        SafePairIsIdeal(op, l, r, ptr, a, b);
      }
    } else {
      UnsafePairGoesWrong(op, l, r, ptr);
      var (a, b) := BadOperands(op, l, r, ptr);
      IdealIsExact(op, carrier, a, b);
    }
  }

  lemma IdealIsExact(op: Op, carrier: Carrier, a: int, b: int)
    ensures Ideal(op, carrier, a, b).Value? ==> Exact(op, a, b) == Some(Ideal(op, carrier, a, b).value)
  {
  }

  /** Division converts both operands without changing them, for all possible values, iff they do not clash. */
  lemma DivisionKeepsOperandsIff(l: Operand, r: Operand, ptr: PointerBits)
    requires exists a :: Possible(l, a)
    requires exists b :: Possible(r, b)
    ensures var carrier := DivisionCarrier(l, r, ptr);
            !Clash(l, r) && !Clash(r, l) <==>
            (forall a, b :: Possible(l, a) && Possible(r, b) ==>
                Wrap(carrier, a) == a && Wrap(carrier, b) == b)
  {
    hide DivisionCarrier, Clash, Possible, Wrap;
    var carrier := DivisionCarrier(l, r, ptr);
    if !Clash(l, r) && !Clash(r, l) {
      forall a, b | Possible(l, a) && Possible(r, b)
        ensures Wrap(carrier, a) == a && Wrap(carrier, b) == b
      {
        NoClashKeeps(l, r, ptr, a, b);
      }
    } else if Clash(l, r) {
      var a := ClashChanges(l, r, ptr);
      var b :| Possible(r, b);
    } else {
      var b := ClashChanges(r, l, ptr);
      DivisionCarrierSymmetric(l, r, ptr);
      var a :| Possible(l, a);
    }
  }

  lemma DivisionCarrierSymmetric(l: Operand, r: Operand, ptr: PointerBits)
    ensures DivisionCarrier(l, r, ptr) == DivisionCarrier(r, l, ptr)
  {
    hide Adapted;
  }

  lemma AdaptedHolds(x: Operand, other: Operand, a: int)
    requires Possible(x, a)
    ensures InRange(Adapted(x, other), a)
  {
    if ConstantFits(x, other.carrier) { FitsExact(x.constant.value, other.carrier); }
  }

  lemma NoClashKeeps(l: Operand, r: Operand, ptr: PointerBits, a: int, b: int)
    requires Possible(l, a) && Possible(r, b) && !Clash(l, r) && !Clash(r, l)
    ensures var carrier := DivisionCarrier(l, r, ptr);
            InRange(carrier, a) && InRange(carrier, b) && Wrap(carrier, a) == a && Wrap(carrier, b) == b
  {
    AdaptedHolds(l, r, a);
    AdaptedHolds(r, l, b);
    AdaptedWide(l, r, a);
    AdaptedWide(r, l, b);
    hide Adapted, Clash, Possible, Wrap;
  }

  /** Without a clash, a wide unsigned operand beside a signed one has a small value. */
  lemma AdaptedWide(x: Operand, y: Operand, a: int)
    requires Possible(x, a) && !Clash(x, y)
    ensures WideUnsigned(Adapted(x, y)) && Adapted(y, x).Signed? ==> a < TWO_TO_63
  {
  }

  /** Where they clash, the common carrier is signed and a large value does not survive. */
  lemma ClashChanges(x: Operand, y: Operand, ptr: PointerBits) returns (a: int)
    requires Clash(x, y) && exists a :: Possible(x, a)
    ensures Possible(x, a) && Wrap(DivisionCarrier(x, y, ptr), a) != a
  {
    if x.constant.Some? {
      a :| Possible(x, a);
    } else {
      a := TWO_TO_64 - 1;
    }
    assert DivisionCarrier(x, y, ptr) == Signed(64);
  }

  /** Division on operands that do not clash is the ideal operation. */
  lemma DivisionIsIdeal(op: Op, l: Operand, r: Operand, ptr: PointerBits, a: int, b: int)
    requires Divides(op) && Possible(l, a) && Possible(r, b) && !Clash(l, r) && !Clash(r, l)
    ensures var carrier := DivisionCarrier(l, r, ptr);
            RunNode(op, carrier, a, b, true) == Ideal(op, carrier, a, b)
  {
    var carrier := DivisionCarrier(l, r, ptr);
    NoClashKeeps(l, r, ptr, a, b);
    hide DivisionCarrier, Possible, Clash, Wrap;
    if b != 0 { DivisionStays(carrier, a, b); }
  }

  /** Truncated division leaves a carrier's range only for the lowest value over minus one. */
  lemma DivisionStays(carrier: Carrier, a: int, b: int)
    requires InRange(carrier, a) && InRange(carrier, b) && b != 0
    ensures InRange(carrier, Remainder(a, b))
    ensures InRange(carrier, Quotient(a, b)) <==> !(carrier.Signed? && a == Low(carrier) && b == -1)
    ensures b == -1 ==> Remainder(a, b) == 0
  {
    hide Modulus;
    QuotientSize(Abs(a), Abs(b));
  }

  /** Dividing by one changes nothing, dividing by more at least halves. */
  lemma QuotientSize(m: nat, n: nat)
    requires n > 0
    ensures 0 <= m / n <= m && 0 <= m % n <= m && m % n < n
    ensures n > 1 ==> 2 * (m / n) <= m
    ensures n == 1 ==> m / n == m && m % n == 0
  {
    DivMod(m, n);
    ScaleUp(1, n, m / n);
    if n > 1 { ScaleUp(2, n, m / n); }
    if n == 1 { ModUnique(m, 1, m, 0); }
  }

  // ------------------------------------------------------------------ whole expressions

  /** Literals, variables and the five operators. */
  predicate Arithmetic(e: Expr) {
    match e
    case Literal(_) => true
    case Variable(_, _) => true
    case Binary(_, l, r) => Arithmetic(l) && Arithmetic(r)
    case _ => false
  }

  /** The static carrier of an expression and its folded value. */
  function OperandOf(e: Expr, ptr: PointerBits): Operand
    requires Arithmetic(e)
  {
    match e
    case Literal(n) => Operand(FromLiteral(n).carrier, Fold(e).result)
    case Variable(_, carrier) => Operand(carrier, None)
    case Binary(op, l, r) => Operand(BoundCarrier(op, OperandOf(l, ptr), OperandOf(r, ptr), ptr), Fold(e).result)
  }

  /** The variables hold values of their carriers. */
  predicate WellTyped(e: Expr, vars: Valuation) {
    match e
    case Variable(name, carrier) => InRange(carrier, vars(name))
    case Binary(_, l, r) => WellTyped(l, vars) && WellTyped(r, vars)
    case _ => true
  }

  /** The generated expression. Either operand's exception is the outcome; the left one's is reported. */
  function RunExpr(e: Expr, vars: Valuation, checked: bool, ptr: PointerBits): Outcome
    requires Arithmetic(e)
  {
    match e
    case Literal(n) => Outcome.Value(n)
    case Variable(name, _) => Outcome.Value(vars(name))
    case Binary(op, l, r) =>
      var x, y := RunExpr(l, vars, checked, ptr), RunExpr(r, vars, checked, ptr);
      if !x.Value? then x
      else if !y.Value? then y
      else RunNode(op, OperandOf(e, ptr).carrier, x.value, y.value, checked)
  }

  /** No node combines operands that its carrier cannot hold. */
  predicate AllSafe(e: Expr, ptr: PointerBits)
    requires Arithmetic(e)
  {
    match e
    case Binary(op, l, r) =>
      && AllSafe(l, ptr) && AllSafe(r, ptr)
      && var x, y := OperandOf(l, ptr), OperandOf(r, ptr);
         if Divides(op) then !Clash(x, y) && !Clash(y, x) else SafePair(op, x.carrier, y.carrier, ptr)
    case _ => true
  }

  /** Every node has an exact value and its carrier holds it. */
  predicate Contained(e: Expr, vars: Valuation, ptr: PointerBits)
    requires Arithmetic(e)
  {
    match e
    case Binary(op, l, r) =>
      && Contained(l, vars, ptr) && Contained(r, vars, ptr)
      && ConstExprs.Value(e, vars).Some? && InRange(OperandOf(e, ptr).carrier, ConstExprs.Value(e, vars).value)
    case _ => true
  }

  lemma NodeIsIdeal(op: Op, x: Operand, y: Operand, ptr: PointerBits, a: int, b: int)
    requires Possible(x, a) && Possible(y, b)
    requires if Divides(op) then !Clash(x, y) && !Clash(y, x) else SafePair(op, x.carrier, y.carrier, ptr)
    ensures var carrier := BoundCarrier(op, x, y, ptr);
            RunNode(op, carrier, a, b, true) == Ideal(op, carrier, a, b)
  {
    hide RunNode, Ideal, ArithmeticCarrier, DivisionCarrier, Clash, SafePair;
    if Divides(op) {
      DivisionIsIdeal(op, x, y, ptr, a, b);
    } else {
      SafePairIsIdeal(op, x.carrier, y.carrier, ptr, a, b);
    }
  }

  lemma ArithmeticIsPlain(e: Expr)
    requires Arithmetic(e)
    ensures Plain(e)
  {
  }

  /**
   * Overflow-checked evaluation on the bound carriers gives the exact value of the expression or
   * raises an exception, and it gives the value precisely when every node's carrier holds its own.
   */
  lemma {:induction false} CheckedRunIsExact(e: Expr, vars: Valuation, ptr: PointerBits)
    requires Arithmetic(e) && WellTyped(e, vars) && AllSafe(e, ptr)
    ensures var out := RunExpr(e, vars, true, ptr);
            && (out.Value? <==> Contained(e, vars, ptr))
            && (out.Value? ==> ConstExprs.Value(e, vars) == Some(out.value) && Possible(OperandOf(e, ptr), out.value))
  {
    hide RunNode, Clash, SafePair, BoundCarrier, Fold, ConstExprs.Value, Wrap;
    match e
    case Literal(n) =>
      FromLiteralOk(n);
      LiteralFacts(n, vars);
    case Variable(name, _) => VariableFacts(e, vars);
    case Binary(op, l, r) =>
      CheckedRunIsExact(l, vars, ptr);
      CheckedRunIsExact(r, vars, ptr);
      var x, y := RunExpr(l, vars, true, ptr), RunExpr(r, vars, true, ptr);
      if x.Value? && y.Value? {
        NodeIsIdeal(op, OperandOf(l, ptr), OperandOf(r, ptr), ptr, x.value, y.value);
        BinaryFacts(op, l, r, vars);
        FoldedMeansValue(e, vars);
      }
  }

  lemma LiteralFacts(n: UInt64, vars: Valuation)
    ensures Fold(Literal(n)).result == Some(FromLiteral(n))
    ensures ConstExprs.Value(Literal(n), vars) == Some(n)
  {
  }

  lemma VariableFacts(e: Expr, vars: Valuation)
    requires e.Variable?
    ensures ConstExprs.Value(e, vars) == Some(vars(e.name))
  {
  }

  lemma BinaryFacts(op: Op, l: Expr, r: Expr, vars: Valuation)
    ensures var x, y := ConstExprs.Value(l, vars), ConstExprs.Value(r, vars);
            x.Some? && y.Some? ==> ConstExprs.Value(Binary(op, l, r), vars) == Exact(op, x.value, y.value)
  {
  }

  lemma FoldedMeansValue(e: Expr, vars: Valuation)
    requires Arithmetic(e)
    ensures var c := Fold(e).result;
            c.Some? ==> Readable(c.value) && ConstExprs.Value(e, vars) == Some(Meaning(c.value))
  {
    hide Fold, ConstExprs.Value, Foldable, Overflows;
    ArithmeticIsPlain(e);
    FoldPlain(e, vars);
  }

  /** Folding and checked evaluation never disagree: if both give a value it is the same one. */
  lemma FoldingAgreesWithRunning(e: Expr, vars: Valuation, ptr: PointerBits)
    requires Arithmetic(e) && WellTyped(e, vars) && AllSafe(e, ptr)
    ensures var c, out := Fold(e).result, RunExpr(e, vars, true, ptr);
            c.Some? && out.Value? ==> out.value == Meaning(c.value)
  {
    hide Fold, RunExpr, ConstExprs.Value;
    CheckedRunIsExact(e, vars, ptr);
    FoldedMeansValue(e, vars);
  }

  /** Every leaf has a signed carrier; a literal does unless it lies in an unsigned carrier's upper half. */
  predicate AllSigned(e: Expr) {
    match e
    case Literal(n) => FromLiteral(n).carrier.Signed?
    case Variable(_, carrier) => carrier.Signed?
    case Binary(_, l, r) => AllSigned(l) && AllSigned(r)
    case _ => false
  }

  /** Signed operands never need more: every tree over them is safe on both targets. */
  lemma {:induction false} SignedIsSafe(e: Expr, ptr: PointerBits)
    requires Arithmetic(e) && AllSigned(e)
    ensures AllSafe(e, ptr) && OperandOf(e, ptr).carrier.Signed?
  {
    if e.Binary? {
      SignedIsSafe(e.left, ptr);
      SignedIsSafe(e.right, ptr);
      SignedNode(e.op, OperandOf(e.left, ptr), OperandOf(e.right, ptr), ptr);
    }
  }

  lemma SignedNode(op: Op, x: Operand, y: Operand, ptr: PointerBits)
    requires x.carrier.Signed? && y.carrier.Signed?
    ensures BoundCarrier(op, x, y, ptr).Signed?
  {
  }

  /**
   * No operand being unsigned 64-bit is not enough for a whole tree: on a 64-bit target the sum of
   * two byte literals is itself bound to unsigned 64 bits, and adding a smallint to it goes wrong.
   */
  lemma NarrowLeavesCanGoWrong()
    ensures var e := Binary(Add, Binary(Add, Literal(200), Literal(200)), Variable("x", Signed(16)));
            var vars := (name: string) => -401;
            && Arithmetic(e) && WellTyped(e, vars) && !AllSafe(e, 64)
            && ConstExprs.Value(e, vars) == Some(-1)
            && RunExpr(e, vars, true, 64) == Outcome.Value(TWO_TO_64 - 1)
  {
    var inner := Binary(Add, Literal(200), Literal(200));
    var vars := (name: string) => -401;
    InnerSum(vars);
    var e := Binary(Add, inner, Variable("x", Signed(16)));
    hide Fold;
    assert OperandOf(e, 64).carrier == Unsigned(64);
    ModUnique(-401, TWO_TO_64, -1, TWO_TO_64 - 401);
    ModUnique(TWO_TO_64 - 1, TWO_TO_64, 0, TWO_TO_64 - 1);
    assert RunNode(Add, Unsigned(64), 400, -401, true) == Outcome.Value(TWO_TO_64 - 1);
  }

  lemma InnerSum(vars: Valuation)
    ensures var inner := Binary(Add, Literal(200), Literal(200));
            && OperandOf(inner, 64).carrier == Unsigned(64)
            && RunExpr(inner, vars, true, 64) == Outcome.Value(400)
            && ConstExprs.Value(inner, vars) == Some(400)
  {
    hide Fold;
    assert OperandOf(Literal(200), 64).carrier == Unsigned(8);
  }

  // ------------------------------------------------------------------ comparisons

  /** Equal signs, no unsigned 64-bit operand, or a constant that the other operand's carrier holds. */
  predicate SafeComparison(l: Operand, r: Operand) {
    var lc, rc := l.carrier, r.carrier;
    || lc.Signed? == rc.Signed?
    || ConstantFits(l, rc) || ConstantFits(r, lc)
    || (!WideUnsigned(lc) && !WideUnsigned(rc))
  }

  /** Comparing at the selected carrier is comparing the integers, for all possible values, iff it is safe. */
  lemma ComparisonKeepsOperandsIff(l: Operand, r: Operand, ptr: PointerBits)
    requires exists a :: Possible(l, a)
    requires exists b :: Possible(r, b)
    ensures var carrier := ComparisonCarrier(l, r, ptr);
            SafeComparison(l, r) <==>
            (forall a, b :: Possible(l, a) && Possible(r, b) ==>
                Wrap(carrier, a) == a && Wrap(carrier, b) == b)
  {
    hide ComparisonCarrier, SafeComparison, Possible, Wrap;
    var carrier := ComparisonCarrier(l, r, ptr);
    if SafeComparison(l, r) {
      forall a, b | Possible(l, a) && Possible(r, b)
        ensures Wrap(carrier, a) == a && Wrap(carrier, b) == b
      {
        ComparisonKeeps(l, r, ptr, a, b);
      }
    } else {
      var a, b := ComparisonChanges(l, r, ptr);
    }
  }

  lemma ComparisonKeeps(l: Operand, r: Operand, ptr: PointerBits, a: int, b: int)
    requires Possible(l, a) && Possible(r, b) && SafeComparison(l, r)
    ensures var carrier := ComparisonCarrier(l, r, ptr);
            InRange(carrier, a) && InRange(carrier, b) && Wrap(carrier, a) == a && Wrap(carrier, b) == b
  {
    hide Wrap, Fits;
    if ConstantFits(l, r.carrier) { FitsExact(l.constant.value, r.carrier); }
    if ConstantFits(r, l.carrier) { FitsExact(r.constant.value, l.carrier); }
  }

  lemma ComparisonChanges(l: Operand, r: Operand, ptr: PointerBits) returns (a: int, b: int)
    requires !SafeComparison(l, r)
    requires exists a :: Possible(l, a)
    requires exists b :: Possible(r, b)
    ensures Possible(l, a) && Possible(r, b)
    ensures var carrier := ComparisonCarrier(l, r, ptr);
            !(Wrap(carrier, a) == a && Wrap(carrier, b) == b)
  {
    hide Wrap;
    a := Extreme(l, r.carrier);
    b := Extreme(r, l.carrier);
    if WideUnsigned(l.carrier) {
      assert a >= TWO_TO_63 || r.carrier != Signed(64);
      assert b < 0;
    } else {
      assert b >= TWO_TO_63 || l.carrier != Signed(64);
      assert a < 0;
    }
    assert ComparisonCarrier(l, r, ptr) == Signed(64) || ComparisonCarrier(l, r, ptr) == Unsigned(64);
  }

  /** A possible value that the other carrier lacks, when the operand is not a constant it holds. */
  lemma Extreme(x: Operand, other: Carrier) returns (a: int)
    requires x.carrier.Signed? != other.Signed? && !ConstantFits(x, other)
    requires x.carrier.Signed? || WideUnsigned(x.carrier)
    requires exists a :: Possible(x, a)
    ensures Possible(x, a) && (x.carrier.Signed? && WideUnsigned(other) ==> a < 0)
    ensures !InRange(other, a)
  {
    if x.constant.Some? {
      a :| Possible(x, a);
      FitsExact(x.constant.value, other);
    } else {
      a := if x.carrier.Signed? then -1 else TWO_TO_64 - 1;
    }
  }
}
