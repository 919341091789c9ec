/**
  Arithmetic on constants whose pattern a narrow signed cast or step has cut: per operator, exactly when
  the folder is right all the same.
 */
module CutConstants {
  import opened Wrappers
  import opened Carriers
  import opened ConstInts

  /** The constant is cut: its pattern has the low bits of its carrier and nothing above. */
  predicate Cut(c: ConstInt) {
    Made(c) && !Ok(c)
  }

  /** By how much arithmetic takes a constant for less than it means. */
  function Excess(c: ConstInt): nat {
    if Ok(c) then 0 else TWO_TO_64 - Modulus(c.carrier.bits)
  }

  /**
   * The exact integer comes back, or nothing where there is none: flagged out of range, unflagged on a
   * zero divisor.
   */
  ghost predicate Right(f: Folded, exact: Option<int>) {
    if exact.Some? then Yields(f, exact.value) else f == Folded(None, false)
  }

  /** When folding is right, from what the operands mean and how their patterns are cut. */
  predicate FoldsRight(op: Op, l: ConstInt, r: ConstInt) {
    var a, b := Meaning(l), Meaning(r);
    || (Ok(l) && Ok(r))
    || match op
       case Add => !Representable(a + b)
       case Sub => (!Ok(l) && !Ok(r) && l.carrier.bits == r.carrier.bits) || !Representable(a - b)
       case Mul => a == 0 || b == 0 || !Representable(a * b)
       case Div => b == 0 || DividesRight(l, r)
       case Mod => b == 0 || RemainsRight(l, r)
  }

  predicate DividesRight(l: ConstInt, r: ConstInt) {
    var m, n := Abs(Meaning(l)), Abs(Meaning(r));
    if Ok(r) then m + Excess(l) < n
    else if Ok(l) then m < n
    else if l.carrier.bits == r.carrier.bits then m < 2 * n
    else if l.carrier.bits < r.carrier.bits then n <= m < 2 * n
    else m < n
  }

  predicate RemainsRight(l: ConstInt, r: ConstInt)
    requires Meaning(r) != 0
  {
    var m, n := Abs(Meaning(l)), Abs(Meaning(r));
    if Ok(r) then Excess(l) % n == 0
    else if Ok(l) then m < n || (n + Excess(r) <= m < 2 * n + Excess(r) && Excess(r) % n == 0)
    else l.carrier.bits == r.carrier.bits && n <= m < 2 * n
  }

  // ------------------------------------------------------------------ what a constant is taken for

  const GAP: int := TWO_TO_64 - 0x1_0000_0000

  /** A constant is taken for its meaning less its excess; a cut one is small, negative, and far off. */
  lemma TakenFor(c: ConstInt)
    requires Made(c)
    ensures Operand(c) == Meaning(c) - Excess(c)
    ensures -TWO_TO_63 <= Meaning(c) < TWO_TO_64
    ensures !Ok(c) ==>
              && -0x8000_0000 <= Meaning(c) < 0 && GAP <= Excess(c) < TWO_TO_64
              && Abs(Operand(c)) == Abs(Meaning(c)) + Excess(c)
              && Abs(Meaning(c)) <= Modulus(c.carrier.bits) / 2
              && (c.carrier.bits == 8 || c.carrier.bits == 16 || c.carrier.bits == 32)
  {
    if Ok(c) { OperandIsMeaning(c); } else { DisagreeingShape(c); }
  }

  /** Of two cut constants the one with the narrower carrier is taken for the lesser integer. */
  lemma NarrowerIsLess(l: ConstInt, r: ConstInt)
    requires Cut(l) && Cut(r) && l.carrier.bits < r.carrier.bits
    ensures Abs(Operand(l)) > Abs(Operand(r)) + Abs(Meaning(l))
  {
    TakenFor(l);
    TakenFor(r);
  }

  /** Folding is right iff the integers computed and meant are equal or both unrepresentable. */
  lemma RightIff(op: Op, l: ConstInt, r: ConstInt)
    requires Made(l) && Made(r)
    ensures var taken := Exact(op, Operand(l), Operand(r));
            var meant := Exact(op, Meaning(l), Meaning(r));
            && taken.Some? == meant.Some?
            && (Right(FoldBinary(op, l, r), meant) <==>
                  (meant.Some? ==>
                     taken.value == meant.value || (!Representable(taken.value) && !Representable(meant.value))))
  {
    hide FoldBinary, Meaning, Operand, Quotient, Remainder;
    FoldBinaryComputes(op, l, r);
    TakenFor(l);
    TakenFor(r);
    ZeroTaken(r);
  }

  lemma ZeroTaken(c: ConstInt)
    requires Made(c)
    ensures Operand(c) == 0 <==> Meaning(c) == 0
  {
    TakenFor(c);
  }

  // ------------------------------------------------------------------ sums, differences, products

  lemma AddRight(l: ConstInt, r: ConstInt)
    requires Made(l) && Made(r)
    ensures Right(FoldBinary(Add, l, r), Some(Meaning(l) + Meaning(r))) <==> FoldsRight(Add, l, r)
  {
    hide FoldBinary, Right, Meaning, Operand, Made, Excess;
    RightIff(Add, l, r);
    TakenFor(l);
    TakenFor(r);
    NoExcess(l);
    NoExcess(r);
  }

  lemma SubRight(l: ConstInt, r: ConstInt)
    requires Made(l) && Made(r)
    ensures Right(FoldBinary(Sub, l, r), Some(Meaning(l) - Meaning(r))) <==> FoldsRight(Sub, l, r)
  {
    hide FoldBinary, Right, Meaning, Operand, Made, Excess;
    RightIff(Sub, l, r);
    TakenFor(l);
    TakenFor(r);
    NoExcess(l);
    NoExcess(r);
    if !Ok(l) && !Ok(r) { SameExcess(l, r); }
  }

  lemma NoExcess(c: ConstInt)
    ensures Ok(c) ==> Excess(c) == 0
  {
  }

  lemma SameExcess(l: ConstInt, r: ConstInt)
    requires !Ok(l) && !Ok(r)
    ensures Excess(l) == Excess(r) <==> l.carrier.bits == r.carrier.bits
  {
  }

  lemma MulRight(l: ConstInt, r: ConstInt)
    requires Made(l) && Made(r)
    ensures Right(FoldBinary(Mul, l, r), Some(Meaning(l) * Meaning(r))) <==> FoldsRight(Mul, l, r)
  {
    hide FoldBinary, Right, Meaning, Operand, Made, Excess;
    RightIff(Mul, l, r);
    TakenFor(l);
    TakenFor(r);
    NoExcess(l);
    NoExcess(r);
    var a, b, d, e := Meaning(l), Meaning(r), Excess(l), Excess(r);
    if !Ok(l) && Ok(r) { ProductMoves(a, d, b); }
    if Ok(l) && !Ok(r) { ProductMoves(b, e, a); }
    if !Ok(l) && !Ok(r) { BothCutProduct(a, d, b, e); }
  }

  /** A cut factor moves the product away from zero, unless the other factor is zero. */
  lemma ProductMoves(a: int, d: int, b: int)
    requires a < 0 && d >= GAP
    ensures b == 0 ==> (a - d) * b == a * b == 0
    ensures b != 0 ==> (a - d) * b != a * b
    ensures !Representable(a * b) ==> !Representable((a - d) * b)
  {
    assert (a - d) * b == a * b - d * b;
    if b > 0 {
      Scaled(d, b);
      Scaled(-a, b);
    }
    if b < 0 {
      Scaled(d, -b);
      Scaled(-a, -b);
    }
  }

  lemma BothCutProduct(a: int, d: int, b: int, e: int)
    requires -0x8000_0000 <= a < 0 && -0x8000_0000 <= b < 0 && d >= GAP && e >= GAP
    ensures Representable(a * b) && !Representable((a - d) * (b - e))
  {
    ScaleUp(-a, 0x8000_0000, -b);
    ScaleUp(-b, 0x8000_0000, 0x8000_0000);
    ScaleUp(GAP, d - a, e - b);
    ScaleUp(GAP, e - b, GAP);
    assert a * b == (-a) * (-b);
    assert (a - d) * (b - e) == (d - a) * (e - b);
  }

  // ------------------------------------------------------------------ quotients

  /** Dividends below, up to twice, and from twice the divisor on. */
  lemma SmallQuotients(m: nat, n: nat)
    requires n > 0
    ensures m < n <==> m / n == 0
    ensures n <= m < 2 * n <==> m / n == 1
    ensures m < n ==> m % n == m
    ensures n <= m < 2 * n ==> m % n == m - n
    ensures 0 <= m / n && 0 <= m % n < n && m % n <= m
  {
    DivMod(m, n);
    var q := m / n;
    if m < n { ModUnique(m, n, 0, m); }
    if n <= m < 2 * n { ModUnique(m, n, 1, m - n); }
    if q >= 2 { ScaleUp(2, q, n); }
    QuotientSize(m, n);
  }

  lemma QuotientSize(m: nat, n: nat)
    requires n > 0
    ensures 0 <= m / n <= m && m % n <= m
  {
    DivMod(m, n);
    if m / n > 0 { ScaleUp(1, n, m / n); }
  }

  lemma DivRight(l: ConstInt, r: ConstInt)
    requires Made(l) && Made(r)
    ensures Right(FoldBinary(Div, l, r), Exact(Div, Meaning(l), Meaning(r))) <==> FoldsRight(Div, l, r)
  {
    hide FoldBinary, Right, Meaning, Operand, Made, Excess, Quotient, DividesRight;
    RightIff(Div, l, r);
    if Meaning(r) != 0 && !(Ok(l) && Ok(r)) {
      if Ok(r) { CutDividend(l, r); } else if Ok(l) { CutDivisor(l, r); } else { CutQuotient(l, r); }
    } else if Ok(l) && Ok(r) {
      TakenFor(l);
      TakenFor(r);
      NoExcess(l);
      NoExcess(r);
    }
  }

  /** The computed quotient equals the one meant, or neither is representable. */
  predicate SameQuotients(l: ConstInt, r: ConstInt)
    requires Meaning(r) != 0 && Operand(r) != 0
  {
    var taken, meant := Quotient(Operand(l), Operand(r)), Quotient(Meaning(l), Meaning(r));
    taken == meant || (!Representable(taken) && !Representable(meant))
  }

  lemma CutDividend(l: ConstInt, r: ConstInt)
    requires Cut(l) && Made(r) && Ok(r) && Meaning(r) != 0
    ensures Operand(r) != 0 && (SameQuotients(l, r) <==> DividesRight(l, r))
  {
    hide Made, Meaning, Operand, Excess;
    TakenFor(l);
    TakenFor(r);
    NoExcess(r);
    var m, n, d := Abs(Meaning(l)), Abs(Meaning(r)), Excess(l);
    SmallQuotients(m, n);
    SmallQuotients(m + d, n);
    if n <= m + d { LargerQuotient(m, d, n); }
  }

  lemma LargerQuotient(m: nat, d: nat, n: nat)
    requires 0 < n <= m + d && m <= 0x8000_0000 && d >= GAP
    ensures m / n < (m + d) / n
  {
    if n <= d {
      DivMod(m, n);
      DivMod(m + d, n);
      var q, p := m / n, (m + d) / n;
      if p <= q {
        ScaleUp(p, q, n);
        assert false;
      }
    } else {
      SmallQuotients(m, n);
      SmallQuotients(m + d, n);
    }
  }

  lemma CutDivisor(l: ConstInt, r: ConstInt)
    requires Made(l) && Ok(l) && Cut(r)
    ensures Meaning(r) != 0 && Operand(r) != 0 && (SameQuotients(l, r) <==> DividesRight(l, r))
  {
    hide Made, Meaning, Operand, Excess;
    TakenFor(l);
    TakenFor(r);
    NoExcess(l);
    var m, n, e := Abs(Meaning(l)), Abs(Meaning(r)), Excess(r);
    SmallQuotients(m, n);
    SmallQuotients(m, n + e);
    if n + e <= m {
      ScaleUp(n, 0x8000_0000, 2);
      assert m >= 2 * n;
    }
  }

  lemma CutQuotient(l: ConstInt, r: ConstInt)
    requires Cut(l) && Cut(r)
    ensures Meaning(r) != 0 && Operand(r) != 0 && (SameQuotients(l, r) <==> DividesRight(l, r))
  {
    TakenFor(l);
    TakenFor(r);
    SameExcess(l, r);
    if l.carrier.bits < r.carrier.bits { NarrowerIsLess(l, r); }
    if r.carrier.bits < l.carrier.bits { NarrowerIsLess(r, l); }
    hide Made, Meaning, Operand, Excess, Modulus;
    SmallQuotients(Abs(Meaning(l)), Abs(Meaning(r)));
    SmallQuotients(Abs(Operand(l)), Abs(Operand(r)));
  }

  // ------------------------------------------------------------------ remainders

  lemma ModRight(l: ConstInt, r: ConstInt)
    requires Made(l) && Made(r)
    ensures Right(FoldBinary(Mod, l, r), Exact(Mod, Meaning(l), Meaning(r))) <==> FoldsRight(Mod, l, r)
  {
    hide FoldBinary, Right, Meaning, Operand, Made, Excess, Remainder, RemainsRight;
    RightIff(Mod, l, r);
    if Meaning(r) != 0 && !(Ok(l) && Ok(r)) {
      if Ok(r) { CutModDividend(l, r); } else if Ok(l) { CutModDivisor(l, r); } else { CutRemainder(l, r); }
    } else if Ok(l) && Ok(r) {
      TakenFor(l);
      TakenFor(r);
      NoExcess(l);
      NoExcess(r);
    }
  }

  predicate SameRemainders(l: ConstInt, r: ConstInt)
    requires Meaning(r) != 0 && Operand(r) != 0
  {
    var taken, meant := Remainder(Operand(l), Operand(r)), Remainder(Meaning(l), Meaning(r));
    taken == meant || (!Representable(taken) && !Representable(meant))
  }

  lemma CutModDividend(l: ConstInt, r: ConstInt)
    requires Cut(l) && Made(r) && Ok(r) && Meaning(r) != 0
    ensures Operand(r) != 0 && (SameRemainders(l, r) <==> RemainsRight(l, r))
  {
    hide Made, Meaning, Operand, Excess;
    TakenFor(l);
    TakenFor(r);
    NoExcess(r);
    var m, n, d := Abs(Meaning(l)), Abs(Meaning(r)), Excess(l);
    SmallQuotients(m, n);
    ResidueMoves(m, d, n);
  }

  lemma ResidueMoves(m: nat, d: nat, n: nat)
    requires n > 0
    ensures (m + d) % n == m % n <==> d % n == 0
  {
    DivMod(m, n);
    DivMod(d, n);
    DivMod(m + d, n);
    var q, p, k := m / n, (m + d) / n, d / n;
    if (m + d) % n == m % n {
      assert (p - q) * n == p * n - q * n;
      ModUnique(d, n, p - q, 0);
    }
    if d % n == 0 {
      assert (q + k) * n == q * n + k * n;
      ModUnique(m + d, n, q + k, m % n);
    }
  }

  lemma CutModDivisor(l: ConstInt, r: ConstInt)
    requires Made(l) && Ok(l) && Cut(r)
    ensures Meaning(r) != 0 && Operand(r) != 0 && (SameRemainders(l, r) <==> RemainsRight(l, r))
  {
    hide Made, Meaning, Operand, Excess;
    TakenFor(l);
    TakenFor(r);
    NoExcess(l);
    var m, n, e := Abs(Meaning(l)), Abs(Meaning(r)), Excess(r);
    SmallQuotients(m, n);
    SmallQuotients(m, n + e);
    if n + e <= m { WrappedRemainder(m, n, e); }
  }

  /** A dividend as large as what the cut divisor is taken for leaves the difference of the two. */
  lemma WrappedRemainder(m: nat, n: nat, e: nat)
    requires n > 0 && n + e <= m < 2 * (n + e)
    ensures m - (n + e) == m % n <==> m < 2 * n + e && e % n == 0
  {
    var k := m - (n + e);
    ResidueMoves(k, n + e, n);
    ResidueMoves(n, e, n);
    ModUnique(n, n, 1, 0);
    SmallQuotients(k, n);
    SmallQuotients(m, n);
  }

  lemma CutRemainder(l: ConstInt, r: ConstInt)
    requires Cut(l) && Cut(r)
    ensures Meaning(r) != 0 && Operand(r) != 0 && (SameRemainders(l, r) <==> RemainsRight(l, r))
  {
    TakenFor(l);
    TakenFor(r);
    SameExcess(l, r);
    if l.carrier.bits < r.carrier.bits { NarrowerIsLess(l, r); }
    if r.carrier.bits < l.carrier.bits { NarrowerIsLess(r, l); }
    hide Made, Meaning, Operand, Excess, Modulus;
    SmallQuotients(Abs(Meaning(l)), Abs(Meaning(r)));
    SmallQuotients(Abs(Operand(l)), Abs(Operand(r)));
  }

  // ------------------------------------------------------------------ all operators

  /** For every two constants the folder makes and every operator: right exactly under the condition. */
  lemma FoldRightIff(op: Op, l: ConstInt, r: ConstInt)
    requires Made(l) && Made(r)
    ensures Right(FoldBinary(op, l, r), Exact(op, Meaning(l), Meaning(r))) <==> FoldsRight(op, l, r)
  {
    hide FoldBinary, FoldsRight, Right, Meaning, Made, Quotient, Remainder;
    match op
    case Add => AddRight(l, r);
    case Sub => SubRight(l, r);
    case Mul => MulRight(l, r);
    case Div => DivRight(l, r);
    case Mod => ModRight(l, r);
  }

  /** What the cast `shortint(n)` of an upper byte value leaves. */
  lemma CastShape(n: UInt64)
    requires 128 <= n < 256
    ensures var c := Convert(FromLiteral(n), Signed(8));
            Cut(c) && Meaning(c) == n - 256 && c.carrier == Signed(8) && Excess(c) == TWO_TO_64 - 256
  {
    var c := Convert(FromLiteral(n), Signed(8));
    FromLiteralOk(n);
    ModUnique(n, 256, 0, n);
    ConvertReads(FromLiteral(n), Signed(8));
    assert c == ConstInt(n - 256, n, Signed(8));
  }

  /**
   * Cut operands do fold correctly now and then: `shortint(255) - shortint(254)` is 1 and
   * `shortint(255) mod 2` is -1, while `shortint(255) + 1`, which is 0, is not found.
   */
  lemma CutExamples()
    ensures var x, y := Convert(FromLiteral(255), Signed(8)), Convert(FromLiteral(254), Signed(8));
            && Meaning(x) == -1 && Meaning(y) == -2
            && Right(FoldBinary(Sub, x, y), Some(1))
            && Right(FoldBinary(Mod, x, FromLiteral(2)), Some(-1))
            && !Right(FoldBinary(Add, x, FromLiteral(1)), Some(0))
  {
    hide FoldBinary, Right, FromLiteral, Convert, Ok, Readable, Meaning, Excess;
    var x, y := Convert(FromLiteral(255), Signed(8)), Convert(FromLiteral(254), Signed(8));
    CastShape(255);
    CastShape(254);
    FromLiteralOk(1);
    FromLiteralOk(2);
    SubRight(x, y);
    ModRight(x, FromLiteral(2));
    ExampleRemainder();
    AddRight(x, FromLiteral(1));
  }

  lemma ExampleRemainder()
    ensures Exact(Mod, -1, 2) == Some(-1) && (TWO_TO_64 - 256) % 2 == 0
  {
  }
}
