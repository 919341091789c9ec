/** The folder's integer constants: a signed 64-bit view, a 64-bit pattern and a carrier. */
module ConstInts {
  import opened Wrappers
  import opened Carriers

  const TWO_TO_63: int := 0x8000_0000_0000_0000
  const TWO_TO_64: int := 0x1_0000_0000_0000_0000

  type Int64 = x: int | -0x8000_0000_0000_0000 <= x < 0x8000_0000_0000_0000
  type UInt64 = x: int | 0 <= x < 0x1_0000_0000_0000_0000

  datatype ConstInt = ConstInt(value: Int64, pattern: UInt64, carrier: Carrier)

  /** One folding step: a constant, or nothing, with the overflow flag raised or not. */
  datatype Folded = Folded(result: Option<ConstInt>, overflow: bool)

  datatype Op = Add | Sub | Mul | Div | Mod

  datatype Comparison = Eq | NotEq | Lt | Gt | LtEq | GtEq

  // ------------------------------------------------------------------ representation

  function ToInt64(x: int): Int64 {
    Wrap(Signed(64), x)
  }

  function ToUInt64(x: int): UInt64 {
    Wrap(Unsigned(64), x)
  }

  predicate IsNegative(c: ConstInt) {
    c.value < 0 && c.carrier.Signed?
  }

  /** The integer a constant stands for. */
  function Meaning(c: ConstInt): int {
    if IsNegative(c) then c.value else c.pattern
  }

  /** Both views agree modulo 2^64: what arithmetic on constants relies on. */
  predicate Ok(c: ConstInt) {
    c.pattern == c.value % TWO_TO_64
  }

  /** The views agree in the low bits of the carrier, which is all a narrow conversion leaves. */
  predicate Readable(c: ConstInt) {
    && c.value == ToInt64(Meaning(c))
    && c.pattern % Modulus(c.carrier.bits) == c.value % Modulus(c.carrier.bits)
    && InRange(c.carrier, Meaning(c))
  }

  /** What the folder makes: views that agree, or a pattern cut to the carrier's width. */
  predicate Made(c: ConstInt) {
    Readable(c) && (Ok(c) || c.pattern < Modulus(c.carrier.bits))
  }

  /** The carrier the folder gives to a signed value. */
  function CarrierForValue(value: Int64): Carrier {
    if -128 <= value <= 127 then Signed(8)
    else if 0 <= value <= 255 then Unsigned(8)
    else if -32768 <= value <= 32767 then Signed(16)
    else if 0 <= value <= 65535 then Unsigned(16)
    else if -0x8000_0000 <= value <= 0x7fff_ffff then Signed(32)
    else if 0 <= value <= 0xffff_ffff then Unsigned(32)
    else Signed(64)
  }

  function FromValue(value: Int64): ConstInt {
    ConstInt(value, ToUInt64(value), CarrierForValue(value))
  }

  function FromLiteral(n: UInt64): ConstInt {
    if n >= TWO_TO_63 then ConstInt(ToInt64(n), n, Unsigned(64)) else FromValue(n)
  }

  predicate Representable(x: int) {
    -TWO_TO_63 <= x < TWO_TO_64
  }

  // ------------------------------------------------------------------ folding

  /** Two's-complement magnitude, as unsigned 64-bit arithmetic computes it. */
  function Magnitude(c: ConstInt): UInt64 {
    if IsNegative(c) then ToUInt64(0 - c.pattern) else c.pattern
  }

  function MakeResult(negative: bool, magnitude: UInt64): Folded {
    if negative then
      if magnitude > TWO_TO_63 then Folded(None, true)
      else Folded(Some(FromValue(0 - magnitude)), false)
    else
      Folded(Some(FromLiteral(magnitude)), false)
  }

  function AddSignedMagnitudes(ln: bool, lm: UInt64, rn: bool, rm: UInt64): Folded {
    if ln != rn then
      if lm >= rm then MakeResult(ln, lm - rm) else MakeResult(rn, rm - lm)
    else if lm > TWO_TO_64 - 1 - rm then Folded(None, true)
    else MakeResult(ln, lm + rm)
  }

  function MulSignedMagnitudes(ln: bool, lm: UInt64, rn: bool, rm: UInt64): Folded {
    if rm != 0 && lm > (TWO_TO_64 - 1) / rm then Folded(None, true)
    else
      ProductFits(lm, rm);
      MakeResult(ln != rn, lm * rm)
  }

  function FoldBinary(op: Op, l: ConstInt, r: ConstInt): Folded {
    var ln, rn := IsNegative(l), IsNegative(r);
    var lm, rm := Magnitude(l), Magnitude(r);
    match op
    case Add => AddSignedMagnitudes(ln, lm, rn, rm)
    case Sub => AddSignedMagnitudes(ln, lm, !rn, rm)
    case Mul => MulSignedMagnitudes(ln, lm, rn, rm)
    case Div =>
      if rm == 0 then Folded(None, false)
      else
        QuotientFits(lm, rm);
        MakeResult(ln != rn, lm / rm)
    case Mod => if rm == 0 then Folded(None, false) else MakeResult(ln, lm % rm)
  }

  function FoldNegate(c: ConstInt): Folded {
    if c.value == -TWO_TO_63 then Folded(None, true)
    else Folded(Some(FromValue(0 - c.value)), false)
  }

  // ------------------------------------------------------------------ mathematics

  /** `q` and `r` are the quotient rounded toward zero and the remainder with the dividend's sign. */
  predicate Truncated(a: int, b: int, q: int, r: int) {
    && a == q * b + r
    && (if b < 0 then b < r < -b else -b < r < b)
    && (r == 0 || (r < 0 <==> a < 0))
  }

  function Abs(x: int): nat {
    if x < 0 then -x else x
  }

  function Quotient(a: int, b: int): int
    requires b != 0
  {
    if (a < 0) != (b < 0) then -(Abs(a) / Abs(b)) else Abs(a) / Abs(b)
  }

  function Remainder(a: int, b: int): int
    requires b != 0
  {
    if a < 0 then -(Abs(a) % Abs(b)) else Abs(a) % Abs(b)
  }

  /** `div` and `mod` satisfy the division law, and nothing else does. */
  lemma DivisionLaw(a: int, b: int)
    requires b != 0
    ensures Truncated(a, b, Quotient(a, b), Remainder(a, b))
    ensures forall q, r :: Truncated(a, b, q, r) ==> q == Quotient(a, b) && r == Remainder(a, b)
  {
    var m, n := Abs(a), Abs(b);
    DivMod(m, n);
    if a < 0 && b < 0 { assert -((m / n) * n) == (m / n) * b; }
    if a < 0 && b > 0 { assert -((m / n) * n) == -(m / n) * b; }
    if a >= 0 && b < 0 { assert -(m / n) * b == (m / n) * n; }
    forall q, r | Truncated(a, b, q, r)
      ensures q == Quotient(a, b) && r == Remainder(a, b)
    {
      TruncatedMagnitudes(a, b, q, r);
    }
  }

  lemma TruncatedMagnitudes(a: int, b: int, q: int, r: int)
    requires b != 0 && Truncated(a, b, q, r)
    ensures q == Quotient(a, b) && r == Remainder(a, b)
  {
    var sq := if (a < 0) != (b < 0) then -q else q;
    var sr := if a < 0 then -r else r;
    assert Abs(a) == sq * Abs(b) + sr;
    assert 0 <= sr < Abs(b);
    ModUnique(Abs(a), Abs(b), sq, sr);
  }

  /** The mathematical result of an operator, nothing on a zero divisor. */
  function Exact(op: Op, a: int, b: int): Option<int> {
    match op
    case Add => Some(a + b)
    case Sub => Some(a - b)
    case Mul => Some(a * b)
    case Div => if b == 0 then None else Some(Quotient(a, b))
    case Mod => if b == 0 then None else Some(Remainder(a, b))
  }

  // ------------------------------------------------------------------ arithmetic facts

  lemma ProductFits(lm: UInt64, rm: UInt64)
    ensures (rm == 0 || lm <= (TWO_TO_64 - 1) / rm) <==> 0 <= lm * rm < TWO_TO_64
  {
    if rm != 0 {
      var q := (TWO_TO_64 - 1) / rm;
      DivMod(TWO_TO_64 - 1, rm);
      if lm <= q {
        ScaleUp(lm, q, rm);
      } else {
        ScaleUp(q + 1, lm, rm);
        assert (q + 1) * rm == q * rm + rm;
      }
    }
  }

  lemma ScaleUp(a: nat, b: nat, k: nat)
    requires a <= b
    ensures 0 <= a * k <= b * k
  {
  }

  lemma QuotientFits(lm: UInt64, rm: UInt64)
    requires rm != 0
    ensures 0 <= lm / rm <= lm
  {
    DivMod(lm, rm);
    ScaleUp(1, rm, lm / rm);
  }

  // ------------------------------------------------------------------ exactness

  /** What arithmetic takes a constant to be: the pattern read with the operand's sign. */
  function Operand(c: ConstInt): int {
    if IsNegative(c) && c.pattern != 0 then c.pattern - TWO_TO_64 else c.pattern
  }

  /** Arithmetic reads an operand correctly exactly when its views agree. */
  lemma OperandIsMeaning(c: ConstInt)
    requires Readable(c)
    ensures Operand(c) == Meaning(c) <==> Ok(c)
  {
    WrapInRange(Signed(64), c.value);
  }

  lemma OkMeansReadable(c: ConstInt)
    requires Ok(c) && InRange(c.carrier, Meaning(c))
    ensures Readable(c)
  {
    WrapInRange(Signed(64), c.value);
    WrapInRange(c.carrier, c.value);
    PatternLowBits(c.value, c.carrier.bits);
    if !IsNegative(c) { WrapInRange(Signed(64), Meaning(c)); }
  }

  /** Reducing modulo 2^64 first keeps the residue modulo any narrower width. */
  lemma PatternLowBits(x: int, w: Width)
    ensures (x % TWO_TO_64) % Modulus(w) == x % Modulus(w)
  {
    NarrowResidue(x, 64, w);
  }

  lemma NarrowResidue(x: int, wide: Width, w: Width)
    requires w <= wide
    ensures (x % Modulus(wide)) % Modulus(w) == x % Modulus(w)
  {
    var k := WidthRatio(wide, w);
    hide Modulus;
    var big, m := Modulus(wide), Modulus(w);
    DivMod(x, big);
    var q, r := x / big, x % big;
    DivMod(r, m);
    Regroup(q, k, m, r / m, r % m);
    ModUnique(x, m, q * k + r / m, r % m);
  }

  lemma Regroup(q: int, k: int, m: int, j: int, r: int)
    ensures q * (k * m) + (j * m + r) == (q * k + j) * m + r
  {
    assert q * (k * m) == (q * k) * m;
    assert (q * k + j) * m == (q * k) * m + j * m;
  }

  lemma WidthRatio(wide: Width, w: Width) returns (k: int)
    requires w <= wide
    ensures Modulus(wide) == k * Modulus(w)
  {
    k := if wide == w then 1
         else if wide == 16 || (wide == 32 && w == 16) then (if wide == 16 then 0x100 else 0x1_0000)
         else if wide == 32 then 0x100_0000
         else if w == 8 then 0x100_0000_0000_0000
         else if w == 16 then 0x1_0000_0000_0000
         else 0x1_0000_0000;
  }

  lemma FromValueOk(value: Int64)
    ensures Ok(FromValue(value)) && Readable(FromValue(value)) && Meaning(FromValue(value)) == value
  {
    WrapInRange(Signed(64), value);
    OkMeansReadable(FromValue(value));
  }

  lemma FromLiteralOk(n: UInt64)
    ensures Ok(FromLiteral(n)) && Readable(FromLiteral(n)) && Meaning(FromLiteral(n)) == n
  {
    if n >= TWO_TO_63 {
      WrapInRange(Unsigned(64), n);
      WrapInRange(Signed(64), ToInt64(n));
      ModUnique(ToInt64(n), TWO_TO_64, -1, n);
      OkMeansReadable(FromLiteral(n));
    } else {
      FromValueOk(n);
    }
  }

  /** A folding step yields exactly `exact`, or nothing with the flag when that is not representable. */
  ghost predicate Yields(f: Folded, exact: int) {
    && f.overflow == !Representable(exact)
    && f.result.Some? == Representable(exact)
    && (f.result.Some? ==> Ok(f.result.value) && Readable(f.result.value) && Meaning(f.result.value) == exact)
  }

  function Sign(negative: bool, m: int): int {
    if negative then -m else m
  }

  lemma MakeResultYields(negative: bool, m: UInt64)
    ensures Yields(MakeResult(negative, m), Sign(negative, m))
  {
    if negative {
      if m <= TWO_TO_63 { FromValueOk(0 - m); }
    } else {
      FromLiteralOk(m);
    }
  }

  lemma AddYields(ln: bool, lm: UInt64, rn: bool, rm: UInt64)
    ensures Yields(AddSignedMagnitudes(ln, lm, rn, rm), Sign(ln, lm) + Sign(rn, rm))
  {
    hide MakeResult, FromValue, FromLiteral, Ok, Readable, Meaning;
    if ln != rn {
      if lm >= rm { MakeResultYields(ln, lm - rm); } else { MakeResultYields(rn, rm - lm); }
    } else if lm <= TWO_TO_64 - 1 - rm {
      MakeResultYields(ln, lm + rm);
    }
  }

  lemma SignedProduct(ln: bool, lm: nat, rn: bool, rm: nat)
    ensures Sign(ln, lm) * Sign(rn, rm) == Sign(ln != rn, lm * rm)
  {
  }

  lemma MulYields(ln: bool, lm: UInt64, rn: bool, rm: UInt64)
    ensures Yields(MulSignedMagnitudes(ln, lm, rn, rm), Sign(ln, lm) * Sign(rn, rm))
  {
    ProductFits(lm, rm);
    SignedProduct(ln, lm, rn, rm);
    ScaleUp(0, lm, rm);
    if lm * rm < TWO_TO_64 {
      MakeResultYields(ln != rn, lm * rm);
    } else {
      assert !Representable(Sign(ln != rn, lm * rm));
    }
  }

  lemma OperandMagnitude(c: ConstInt)
    ensures Operand(c) == Sign(IsNegative(c), Magnitude(c))
    ensures Magnitude(c) == Abs(Operand(c))
    ensures Magnitude(c) != 0 ==> (Operand(c) < 0 <==> IsNegative(c))
  {
    if IsNegative(c) {
      if c.pattern != 0 {
        ModUnique(0 - c.pattern, TWO_TO_64, -1, TWO_TO_64 - c.pattern);
      } else {
        ModUnique(0, TWO_TO_64, 0, 0);
      }
    }
  }

  /**
   * The central fact about folding, for every pair of operands: a step computes the mathematical
   * result of what it takes its operands to be, or nothing exactly when that is not representable
   * (flagged) or the divisor is zero (not flagged).
   */
  lemma FoldBinaryComputes(op: Op, l: ConstInt, r: ConstInt)
    ensures var exact := Exact(op, Operand(l), Operand(r));
            if exact.Some? then Yields(FoldBinary(op, l, r), exact.value)
            else FoldBinary(op, l, r) == Folded(None, false)
  {
    hide Yields, MakeResult, AddSignedMagnitudes, MulSignedMagnitudes, Magnitude, Operand, IsNegative, Quotient,
        Remainder;
    var ln, rn := IsNegative(l), IsNegative(r);
    var lm, rm := Magnitude(l), Magnitude(r);
    OperandMagnitude(l);
    OperandMagnitude(r);
    match op {
      case Add => AddYields(ln, lm, rn, rm);
      case Sub => AddYields(ln, lm, !rn, rm);
      case Mul => MulYields(ln, lm, rn, rm);
      case Div => if rm != 0 { DivYields(Operand(l), ln, lm, Operand(r), rn, rm); }
      case Mod => if rm != 0 { ModYields(Operand(l), ln, lm, Operand(r), rn, rm); }
    }
  }

  lemma DivYields(a: int, ln: bool, lm: UInt64, b: int, rn: bool, rm: UInt64)
    requires rm != 0 && a == Sign(ln, lm) && b == Sign(rn, rm)
    ensures 0 <= lm / rm <= lm
    ensures Yields(MakeResult(ln != rn, lm / rm), Quotient(a, b))
  {
    QuotientFits(lm, rm);
    MakeResultYields(ln != rn, lm / rm);
    if lm == 0 { ModUnique(0, rm, 0, 0); }
  }

  lemma ModYields(a: int, ln: bool, lm: UInt64, b: int, rn: bool, rm: UInt64)
    requires rm != 0 && a == Sign(ln, lm) && b == Sign(rn, rm)
    ensures 0 <= lm % rm < rm
    ensures Yields(MakeResult(ln, lm % rm), Remainder(a, b))
  {
    DivMod(lm, rm);
    MakeResultYields(ln, lm % rm);
    if lm == 0 { ModUnique(0, rm, 0, 0); }
  }

  /** On operands whose views agree the step is the mathematical operator itself. */
  lemma FoldBinaryExact(op: Op, l: ConstInt, r: ConstInt)
    requires Ok(l) && Readable(l) && Ok(r) && Readable(r)
    ensures var exact := Exact(op, Meaning(l), Meaning(r));
            if exact.Some? then Yields(FoldBinary(op, l, r), exact.value)
            else FoldBinary(op, l, r) == Folded(None, false)
  {
    OperandIsMeaning(l);
    OperandIsMeaning(r);
    FoldBinaryComputes(op, l, r);
  }

  /**
   * Negation works on the signed view, so it is exact precisely up to 2^63 - 1 on either side: the
   * two patterns equal to 2^63 give nothing, and larger unsigned operands give a wrong constant.
   */
  lemma FoldNegateExact(c: ConstInt)
    requires Readable(c)
    ensures var f := FoldNegate(c);
            && (f.result.None? <==> Abs(Meaning(c)) == TWO_TO_63)
            && f.overflow == f.result.None?
            && (f.result.Some? ==> Ok(f.result.value) && Readable(f.result.value))
            && (f.result.Some? && Meaning(f.result.value) == -Meaning(c) <==> Abs(Meaning(c)) < TWO_TO_63)
            && (Meaning(c) > TWO_TO_63 ==> Meaning(f.result.value) == TWO_TO_64 - Meaning(c))
  {
    SignedView(c);
    hide Readable, Meaning, Ok;
    if c.value != -TWO_TO_63 { FromValueOk(-c.value); }
  }

  /** The signed view is the meaning, or less by 2^64 where the meaning has no signed 64-bit form. */
  lemma SignedView(c: ConstInt)
    requires Readable(c)
    ensures c.value == if Meaning(c) >= TWO_TO_63 then Meaning(c) - TWO_TO_64 else Meaning(c)
  {
    var m := Meaning(c);
    WrapInRange(Signed(64), m);
    if m >= TWO_TO_63 { ModUnique(m, TWO_TO_64, 0, m); }
  }

  // ------------------------------------------------------------------ conversion

  function Convert(c: ConstInt, target: Carrier): ConstInt {
    var m := Modulus(target.bits);
    var low := c.pattern % m;
    if target.Unsigned? || target.bits == 64 then ConstInt(ToInt64(low), low, target)
    else if low < m / 2 then ConstInt(low, low, target)
    else ConstInt(low - m, low, target)
  }

  function Fits(c: ConstInt, target: Carrier): bool {
    if target.Unsigned? then
      if c.carrier.Unsigned? then target.bits >= 64 || c.pattern <= High(target)
      else c.value >= 0 && (target.bits >= 64 || c.value <= High(target))
    else
      if c.carrier.Unsigned? then c.pattern <= High(target)
      else Low(target) <= c.value <= High(target)
  }

  /** `r` is the member of `target` congruent to `x`; there is only one. */
  predicate Converted(target: Carrier, x: int, r: int) {
    InRange(target, r) && r % Modulus(target.bits) == x % Modulus(target.bits)
  }

  lemma WrapConverts(target: Carrier, x: int)
    ensures Converted(target, x, Wrap(target, x))
    ensures forall r :: Converted(target, x, r) ==> r == Wrap(target, x)
  {
    var m := Modulus(target.bits);
    WrapInRange(target, Wrap(target, x));
    DivMod(x, m);
    forall r | Converted(target, x, r) ensures r == Wrap(target, x) {
      WrapInRange(target, r);
    }
  }

  lemma CongruentWraps(target: Carrier, x: int, y: int)
    requires x % Modulus(target.bits) == y % Modulus(target.bits)
    ensures Wrap(target, x) == Wrap(target, y)
  {
  }

  /** What conversion stores, from the pattern alone. */
  lemma ConvertReads(c: ConstInt, target: Carrier)
    ensures Readable(Convert(c, target)) && Made(Convert(c, target))
    ensures Meaning(Convert(c, target)) == Wrap(target, c.pattern)
    ensures Convert(c, target).pattern == c.pattern % Modulus(target.bits)
    ensures Ok(Convert(c, target)) <==>
            target.Unsigned? || target.bits == 64 || Wrap(target, c.pattern) >= 0
  {
    var m := Modulus(target.bits);
    var low := c.pattern % m;
    DivMod(c.pattern, m);
    var d := Convert(c, target);
    if target.Unsigned? || target.bits == 64 {
      WrapConverts(Signed(64), low);
      ModUnique(low, TWO_TO_64, 0, low);
      assert Ok(d);
      if target.Unsigned? {
        PatternLowBits(d.value, target.bits);
        ModUnique(low, m, 0, low);
      }
    } else {
      WrapInRange(Signed(64), d.value);
      ModUnique(low, m, 0, low);
      if low >= m / 2 { ModUnique(low - m, m, -1, low); }
    }
  }

  /** Conversion of an agreeing constant is reduction modulo 2^w into the target's range. */
  lemma ConvertExact(c: ConstInt, target: Carrier)
    requires Ok(c) && Readable(c)
    ensures Converted(target, Meaning(c), Meaning(Convert(c, target)))
  {
    ConvertReads(c, target);
    PatternLowBits(c.value, target.bits);
    PatternLowBits(Meaning(c), target.bits);
    OkPattern(c);
    CongruentWraps(target, c.pattern, Meaning(c));
    WrapConverts(target, Meaning(c));
  }

  lemma OkPattern(c: ConstInt)
    requires Ok(c) && Readable(c)
    ensures c.pattern == Meaning(c) % TWO_TO_64
  {
    if !IsNegative(c) { ModUnique(c.pattern, TWO_TO_64, 0, c.pattern); }
  }

  /** The range test holds exactly when conversion changes nothing. */
  lemma FitsIsIdentity(c: ConstInt, target: Carrier)
    requires Ok(c) && Readable(c)
    ensures Fits(c, target) <==> InRange(target, Meaning(c))
    ensures Fits(c, target) <==> Meaning(Convert(c, target)) == Meaning(c)
  {
    FitsExact(c, target);
    ConvertExact(c, target);
    WrapConverts(target, Meaning(c));
  }

  /** The range test is exact for every constant the folder makes, narrow negative ones included. */
  lemma FitsExact(c: ConstInt, target: Carrier)
    requires Readable(c)
    ensures Fits(c, target) <==> InRange(target, Meaning(c))
  {
    var m := Meaning(c);
    WrapInRange(Signed(64), m);
    if c.carrier.Signed? && m >= 0 {
      ModUnique(m, TWO_TO_64, 0, m);
      assert c.value == m;
    }
  }

  /** Narrowing in two stages is narrowing in one, on every constant. */
  lemma ConvertTwice(c: ConstInt, first: Carrier, second: Carrier)
    requires second.bits <= first.bits
    ensures Convert(Convert(c, first), second) == Convert(c, second)
  {
    ConvertReads(c, first);
    NarrowResidue(c.pattern, first.bits, second.bits);
  }

  /**
   * Reconverting the negative narrow constant a cast leaves behind: right exactly when the new
   * type is no wider than the carrier it already has, because only those bits are kept.
   */
  lemma ReconvertExact(c: ConstInt, target: Carrier)
    requires Made(c) && !Ok(c)
    ensures Converted(target, Meaning(c), Meaning(Convert(c, target))) <==> target.bits <= c.carrier.bits
  {
    var w := c.carrier.bits;
    ConvertReads(c, target);
    WrapConverts(target, c.pattern);
    DisagreeingShape(c);
    assert c.pattern == c.value + Modulus(w);
    if target.bits <= w {
      NarrowResidue(c.pattern, w, target.bits);
      NarrowResidue(c.value, w, target.bits);
      CongruentWraps(target, c.pattern, c.value);
      WrapConverts(target, c.value);
    } else {
      ModUnique(c.pattern, Modulus(target.bits), 0, c.pattern);
      ModUnique(c.value, Modulus(target.bits), -1, c.value + Modulus(target.bits));
    }
  }

  /** Only negative constants of a narrow signed carrier disagree with their pattern. */
  lemma DisagreeingShape(c: ConstInt)
    requires Made(c) && !Ok(c)
    ensures IsNegative(c) && c.carrier.bits < 64 && c.pattern == c.value + Modulus(c.carrier.bits)
  {
    var w := c.carrier.bits;
    WrapInRange(Signed(64), Meaning(c));
    if !IsNegative(c) {
      WrapConverts(Signed(64), c.pattern);
      ModUnique(c.pattern, TWO_TO_64, 0, c.pattern);
      assert false;
    }
    WrapInRange(c.carrier, c.value);
    ModUnique(c.pattern, Modulus(w), 0, c.pattern);
    if w == 64 { assert false; }
  }

  /** `shortint(255) + 1` is zero, yet it is reported as an overflow. */
  lemma CastThenAddOverflows()
    ensures var c := Convert(FromLiteral(255), Signed(8));
            Meaning(c) == -1 && !Ok(c) && FoldBinary(Add, c, FromLiteral(1)) == Folded(None, true)
  {
    var c := Convert(FromLiteral(255), Signed(8));
    assert c == ConstInt(-1, 255, Signed(8));
    OperandMagnitude(c);
  }

  /** Negating a disagreeing constant is right, and makes the views agree again. */
  lemma NegateRepairs(c: ConstInt)
    requires Made(c) && !Ok(c)
    ensures var f := FoldNegate(c);
            f.result.Some? && Ok(f.result.value) && Meaning(f.result.value) == -Meaning(c)
  {
    DisagreeingShape(c);
    FoldNegateExact(c);
  }

  // ------------------------------------------------------------------ comparison

  function Order(l: ConstInt, r: ConstInt): int {
    var ln, rn := IsNegative(l), IsNegative(r);
    if ln != rn then (if ln then -1 else 1)
    else if ln then (if l.value < r.value then -1 else if l.value > r.value then 1 else 0)
    else (if l.pattern < r.pattern then -1 else if l.pattern > r.pattern then 1 else 0)
  }

  function Compare(op: Comparison, l: ConstInt, r: ConstInt): bool {
    var order := Order(l, r);
    match op
    case Eq => order == 0
    case NotEq => order != 0
    case Lt => order < 0
    case Gt => order > 0
    case LtEq => order <= 0
    case GtEq => order >= 0
  }

  /** Constant comparison is mathematical comparison, for every constant the folder makes. */
  lemma CompareExact(op: Comparison, l: ConstInt, r: ConstInt)
    requires Readable(l) && Readable(r)
    ensures Compare(op, l, r) == match op
                                 case Eq => Meaning(l) == Meaning(r)
                                 case NotEq => Meaning(l) != Meaning(r)
                                 case Lt => Meaning(l) < Meaning(r)
                                 case Gt => Meaning(l) > Meaning(r)
                                 case LtEq => Meaning(l) <= Meaning(r)
                                 case GtEq => Meaning(l) >= Meaning(r)
  {
  }
}
