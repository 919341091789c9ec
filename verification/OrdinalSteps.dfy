/** Folding of `succ` and `pred`: storage, carrier, overflow check and range check. */
module OrdinalSteps {
  import opened Wrappers
  import opened Carriers
  import opened ConstInts
  import opened ArithmeticCarriers

  datatype Step = Succ | Pred

  /** Declared bounds of an ordinal type. */
  datatype Domain = Domain(low: Int64, high: Int64)

  function Delta(step: Step): int {
    if step == Succ then 1 else -1
  }

  // ------------------------------------------------------------------ storage

  function StorageForDomain(d: Domain): Carrier {
    if d.low < 0 then
      Signed(if d.low >= Low(Signed(8)) && d.high <= High(Signed(8)) then 8
             else if d.low >= Low(Signed(16)) && d.high <= High(Signed(16)) then 16
             else if d.low >= Low(Signed(32)) && d.high <= High(Signed(32)) then 32
             else 64)
    else
      var high := ToUInt64(d.high);
      Unsigned(if high <= High(Unsigned(8)) then 8
               else if high <= High(Unsigned(16)) then 16
               else if high <= High(Unsigned(32)) then 32
               else 64)
  }

  predicate Contains(c: Carrier, d: Domain) {
    InRange(c, d.low) && InRange(c, d.high)
  }

  /** The storage contains the domain, and no carrier that contains it is narrower. */
  lemma StorageIsSmallest(d: Domain, other: Carrier)
    requires d.low <= d.high
    ensures Contains(StorageForDomain(d), d)
    ensures Contains(other, d) ==> StorageForDomain(d).bits <= other.bits
    ensures StorageForDomain(d).Signed? <==> d.low < 0
  {
    if d.low >= 0 { WrapInRange(Unsigned(64), d.high); }
  }

  // ------------------------------------------------------------------ the step

  /** The carrier is the storage itself unless a check asks for a wider one. */
  function StepCarrier(step: Step, storage: Carrier, checkOverflow: bool, checkRange: bool, ptr: PointerBits): Carrier {
    if checkOverflow || checkRange then
      ArithmeticCarrier(if step == Pred then Sub else Add, storage, Signed(8), ptr)
    else storage
  }

  /** The pattern of a carrier read back as a 64-bit signed value. */
  function Signedly(carrier: Carrier, pattern: UInt64): Int64
    requires carrier.Signed? && pattern < Modulus(carrier.bits)
  {
    var m := Modulus(carrier.bits);
    if pattern < m / 2 then pattern else pattern - m
  }

  /** The source's pattern converted to the carrier. */
  function Start(source: ConstInt, carrier: Carrier): (p: UInt64)
    ensures p < Modulus(carrier.bits)
  {
    source.pattern % Modulus(carrier.bits)
  }

  function AddPattern(carrier: Carrier, pattern: UInt64, delta: int): (p: UInt64)
    ensures p < Modulus(carrier.bits)
  {
    (pattern + delta) % Modulus(carrier.bits)
  }

  predicate RangeAllows(carrier: Carrier, pattern: UInt64, domain: Option<Domain>)
    requires pattern < Modulus(carrier.bits)
  {
    && domain.Some?
    && if carrier.Signed? then domain.value.low <= Signedly(carrier, pattern) <= domain.value.high
       else domain.value.low >= 0 && pattern <= ToUInt64(domain.value.high)
  }

  function FoldStep(step: Step, source: ConstInt, storage: Carrier, carrier: Carrier,
                    checkOverflow: bool, checkRange: bool, domain: Option<Domain>): (f: Folded)
  {
    var delta := Delta(step);
    var start := Start(source, carrier);
    if checkOverflow && carrier.Signed? && !InRange(carrier, Signedly(carrier, start) + delta) then
      Folded(None, true)
    else
      var pattern := AddPattern(carrier, start, delta);
      if checkRange && !RangeAllows(carrier, pattern, domain) then Folded(None, false)
      else Folded(Some(Convert(ConstInt(ToInt64(pattern), pattern, carrier), storage)), false)
  }

  // ------------------------------------------------------------------ what it computes

  /** Where a step lands: the carrier's neighbour of the converted source. */
  function Landing(step: Step, carrier: Carrier, x: int): int {
    Wrap(carrier, Wrap(carrier, x) + Delta(step))
  }

  /** The range test on the integer the step lands on; an unsigned carrier checks the upper bound alone. */
  predicate Allowed(carrier: Carrier, z: int, domain: Option<Domain>) {
    && domain.Some?
    && if carrier.Signed? then domain.value.low <= z <= domain.value.high
       else domain.value.low >= 0 && z <= ToUInt64(domain.value.high)
  }

  lemma SignedlyReads(carrier: Carrier, x: int)
    ensures var p := x % Modulus(carrier.bits);
            && 0 <= p < Modulus(carrier.bits)
            && Wrap(carrier, x) == if carrier.Signed? then Signedly(carrier, p) else p
  {
  }

  lemma StepPattern(carrier: Carrier, x: int, delta: int)
    ensures (x % Modulus(carrier.bits) + delta) % Modulus(carrier.bits)
            == (Wrap(carrier, x) + delta) % Modulus(carrier.bits)
  {
    hide Modulus;
    var m := Modulus(carrier.bits);
    var p, y := x % m, Wrap(carrier, x);
    if y != p {
      DivMod(p + delta, m);
      assert p == y + m;
      ModUnique(y + delta, m, (p + delta) / m - 1, (p + delta) % m);
    }
  }

  /** The pattern after the step reads as the landing, and the overflow test sees the unreduced sum. */
  lemma PatternReadsLanding(step: Step, source: ConstInt, carrier: Carrier)
    ensures var x := source.pattern;
            var start := Start(source, carrier);
            var pattern := AddPattern(carrier, start, Delta(step));
            && Wrap(carrier, x) == (if carrier.Signed? then Signedly(carrier, start) else start)
            && Landing(step, carrier, x) == if carrier.Signed? then Signedly(carrier, pattern) else pattern
  {
    hide Modulus, Signedly, Wrap;
    SignedlyReads(carrier, source.pattern);
    StepPattern(carrier, source.pattern, Delta(step));
    SignedlyReads(carrier, Wrap(carrier, source.pattern) + Delta(step));
  }

  /** A step takes its source for what it means unless its views disagree and the carrier is wider than its own. */
  lemma TakesMeaningIff(source: ConstInt, carrier: Carrier)
    requires Made(source)
    ensures Wrap(carrier, source.pattern) == Wrap(carrier, Meaning(source))
            <==> Ok(source) || carrier.bits <= source.carrier.bits
  {
    hide Convert, Wrap, Modulus, Readable, Meaning;
    ConvertReads(source, carrier);
    WrapConverts(carrier, Meaning(source));
    if Ok(source) { ConvertExact(source, carrier); } else { ReconvertExact(source, carrier); }
  }

  /** Masking a carrier's pattern to a storage no wider than it agrees with wrapping its value. */
  lemma LandingInStorage(storage: Carrier, carrier: Carrier, pattern: UInt64, z: int)
    requires pattern < Modulus(carrier.bits) && storage.bits <= carrier.bits
    requires z == if carrier.Signed? then Signedly(carrier, pattern) else pattern
    ensures var c := Convert(ConstInt(ToInt64(pattern), pattern, carrier), storage);
            && c.carrier == storage
            && Meaning(c) == Wrap(storage, z)
            && (Ok(c) <==> storage.Unsigned? || storage.bits == 64 || Wrap(storage, z) >= 0)
  {
    var k := ConstInt(ToInt64(pattern), pattern, carrier);
    ConvertReads(k, storage);
    SamePattern(carrier, pattern, z);
    NarrowResidue(pattern, carrier.bits, storage.bits);
    NarrowResidue(z, carrier.bits, storage.bits);
    CongruentWraps(storage, pattern, z);
    ConvertKeepsCarrier(k, storage);
    hide Convert, Meaning, ToInt64, Ok, Wrap, Modulus;
  }

  lemma SamePattern(carrier: Carrier, pattern: UInt64, z: int)
    requires pattern < Modulus(carrier.bits)
    requires z == if carrier.Signed? then Signedly(carrier, pattern) else pattern
    ensures pattern % Modulus(carrier.bits) == z % Modulus(carrier.bits)
  {
    var m := Modulus(carrier.bits);
    hide Modulus;
    ModUnique(pattern, m, 0, pattern);
    if z != pattern { ModUnique(z, m, -1, pattern); }
  }

  lemma ConvertKeepsCarrier(c: ConstInt, target: Carrier)
    ensures Convert(c, target).carrier == target
  {
  }

  lemma RangeAllowsLanding(carrier: Carrier, pattern: UInt64, z: int, domain: Option<Domain>)
    requires pattern < Modulus(carrier.bits)
    requires z == if carrier.Signed? then Signedly(carrier, pattern) else pattern
    ensures RangeAllows(carrier, pattern, domain) <==> Allowed(carrier, z, domain)
  {
  }

  /** Overflow stops the step: the check is on, the carrier signed, and it lacks the next value. */
  predicate Stops(step: Step, carrier: Carrier, checkOverflow: bool, x: int) {
    checkOverflow && carrier.Signed? && !InRange(carrier, Wrap(carrier, x) + Delta(step))
  }

  /** What a step gives back where neither check stops it. */
  function StepResultOf(step: Step, source: ConstInt, storage: Carrier, carrier: Carrier): ConstInt {
    var pattern := AddPattern(carrier, Start(source, carrier), Delta(step));
    Convert(ConstInt(ToInt64(pattern), pattern, carrier), storage)
  }

  lemma StepEquation(step: Step, source: ConstInt, storage: Carrier, carrier: Carrier,
                     checkOverflow: bool, checkRange: bool, domain: Option<Domain>)
    ensures FoldStep(step, source, storage, carrier, checkOverflow, checkRange, domain) ==
            if Stops(step, carrier, checkOverflow, source.pattern) then Folded(None, true)
            else if checkRange && !Allowed(carrier, Landing(step, carrier, source.pattern), domain) then
              Folded(None, false)
            else Folded(Some(StepResultOf(step, source, storage, carrier)), false)
  {
    PatternReadsLanding(step, source, carrier);
    hide Convert, Modulus, Signedly, Wrap, Start, AddPattern, ToInt64, ToUInt64, Landing, InRange, Allowed, RangeAllows;
    var pattern := AddPattern(carrier, Start(source, carrier), Delta(step));
    RangeAllowsLanding(carrier, pattern, Landing(step, carrier, source.pattern), domain);
  }

  lemma StepResult(step: Step, source: ConstInt, storage: Carrier, carrier: Carrier)
    requires storage.bits <= carrier.bits
    ensures var c := StepResultOf(step, source, storage, carrier);
            var z := Landing(step, carrier, source.pattern);
            && c.carrier == storage && Made(c) && Meaning(c) == Wrap(storage, z)
            && (Ok(c) <==> storage.Unsigned? || storage.bits == 64 || Wrap(storage, z) >= 0)
  {
    PatternReadsLanding(step, source, carrier);
    hide Convert, Meaning, Ok, Made, Modulus, Signedly, Wrap, Start, AddPattern, ToInt64, Landing;
    var pattern := AddPattern(carrier, Start(source, carrier), Delta(step));
    LandingInStorage(storage, carrier, pattern, Landing(step, carrier, source.pattern));
    ConvertReads(ConstInt(ToInt64(pattern), pattern, carrier), storage);
  }

  /**
   * For every source, checks and domain: nothing, flagged or not, or the landing kept in the
   * storage. The source is taken for its pattern as the carrier reads it.
   */
  lemma FoldStepComputes(step: Step, source: ConstInt, storage: Carrier, carrier: Carrier,
                         checkOverflow: bool, checkRange: bool, domain: Option<Domain>)
    requires storage.bits <= carrier.bits
    ensures var f := FoldStep(step, source, storage, carrier, checkOverflow, checkRange, domain);
            var z := Landing(step, carrier, source.pattern);
            && f.overflow == Stops(step, carrier, checkOverflow, source.pattern)
            && (f.result.Some? <==> !f.overflow && (checkRange ==> Allowed(carrier, z, domain)))
            && (f.result.Some? ==>
                  && f.result.value.carrier == storage
                  && Made(f.result.value)
                  && Meaning(f.result.value) == Wrap(storage, z)
                  && (Ok(f.result.value) <==> storage.Unsigned? || storage.bits == 64 || Wrap(storage, z) >= 0))
  {
    hide FoldStep, Convert, Meaning, Ok, Made, Wrap, ToInt64, ToUInt64, Landing, Allowed, Stops;
    StepEquation(step, source, storage, carrier, checkOverflow, checkRange, domain);
    StepResult(step, source, storage, carrier);
  }

  // ------------------------------------------------------------------ the carriers the binder selects

  lemma StepCarrierHolds(step: Step, storage: Carrier, q: bool, r: bool, ptr: PointerBits)
    ensures var carrier := StepCarrier(step, storage, q, r, ptr);
            && storage.bits <= carrier.bits
            && ((q || r) && storage != Unsigned(64) ==> carrier.Signed?)
            && (storage == Unsigned(64) || (!q && !r) ==> carrier == storage)
            && Low(carrier) <= Low(storage) && High(storage) <= High(carrier)
  {
  }

  lemma WrapStays(c: Carrier, x: int)
    requires InRange(c, x)
    ensures Wrap(c, x) == x
  {
  }

  /**
   * Both checks on, any storage but unsigned 64-bit: the result is exactly the neighbour inside
   * the declared domain, or nothing; the flag is raised only at the end of the carrier.
   */
  lemma CheckedStepExact(step: Step, source: ConstInt, storage: Carrier, domain: Domain, ptr: PointerBits)
    requires Made(source) && InRange(storage, Meaning(source))
    requires storage != Unsigned(64) && Contains(storage, domain)
    requires Ok(source) || StepCarrier(step, storage, true, true, ptr).bits <= source.carrier.bits
    ensures var carrier := StepCarrier(step, storage, true, true, ptr);
            var f := FoldStep(step, source, storage, carrier, true, true, Some(domain));
            var next := Meaning(source) + Delta(step);
            && (f.result.Some? <==> domain.low <= next <= domain.high)
            && (f.result.Some? ==> Meaning(f.result.value) == next)
            && (f.overflow <==> !InRange(carrier, next))
  {
    hide FoldStep, StepCarrier, Meaning, Ok, Readable, Made, Wrap, ToUInt64;
    var carrier := StepCarrier(step, storage, true, true, ptr);
    var x := Meaning(source);
    StepCarrierHolds(step, storage, true, true, ptr);
    TakesMeaningIff(source, carrier);
    FoldStepComputes(step, source, storage, carrier, true, true, Some(domain));
    WrapStays(carrier, x);
    if InRange(carrier, x + Delta(step)) {
      WrapStays(carrier, x + Delta(step));
      if InRange(storage, x + Delta(step)) { WrapStays(storage, x + Delta(step)); }
    }
  }

  /**
   * No checks: always a result, and the neighbour reduced modulo the storage width exactly when
   * the source's views agree or its own carrier is at least as wide as the storage.
   */
  lemma UncheckedStepWraps(step: Step, source: ConstInt, storage: Carrier, domain: Option<Domain>, ptr: PointerBits)
    requires Made(source)
    ensures var carrier := StepCarrier(step, storage, false, false, ptr);
            var f := FoldStep(step, source, storage, carrier, false, false, domain);
            && f.result.Some? && !f.overflow
            && (Converted(storage, Meaning(source) + Delta(step), Meaning(f.result.value))
                <==> Ok(source) || storage.bits <= source.carrier.bits)
  {
    hide FoldStep, Meaning, Ok, Readable, Made, Wrap, Converted, Modulus;
    var x, d := Meaning(source), Delta(step);
    FoldStepComputes(step, source, storage, storage, false, false, domain);
    TakesMeaningIff(source, storage);
    WrapConverts(storage, x + d);
    LandingIsNext(step, storage, source.pattern);
    LandingStays(step, storage, source.pattern);
    WrapShifts(storage, source.pattern, x, d);
  }

  lemma LandingIsNext(step: Step, c: Carrier, x: int)
    ensures Landing(step, c, x) == Wrap(c, x + Delta(step))
  {
    hide Wrap, Modulus;
    StepPattern(c, x, Delta(step));
    NextResidue(x, Delta(step), Modulus(c.bits));
    CongruentWraps(c, Wrap(c, x) + Delta(step), x + Delta(step));
  }

  /** Stepping both of two integers keeps them alike in a carrier, or keeps them apart. */
  lemma WrapShifts(c: Carrier, x: int, y: int, d: int)
    ensures Wrap(c, x + d) == Wrap(c, y + d) <==> Wrap(c, x) == Wrap(c, y)
  {
    hide Wrap, Modulus;
    var m := Modulus(c.bits);
    SameWrapSameResidue(c, x, y);
    SameWrapSameResidue(c, x + d, y + d);
    ResidueShifts(x, y, d, m);
    if (x + d) % m == (y + d) % m { ResidueShifts(x + d, y + d, -d, m); }
  }

  lemma ResidueShifts(x: int, y: int, d: int, m: int)
    requires m > 0
    ensures x % m == y % m ==> (x + d) % m == (y + d) % m
  {
    NextResidue(x, d, m);
    NextResidue(y, d, m);
  }

  lemma SameWrapSameResidue(c: Carrier, x: int, y: int)
    ensures Wrap(c, x) == Wrap(c, y) <==> x % Modulus(c.bits) == y % Modulus(c.bits)
  {
    WrapResidue(c, x);
    WrapResidue(c, y);
    if x % Modulus(c.bits) == y % Modulus(c.bits) { CongruentWraps(c, x, y); }
    hide Wrap, Modulus;
  }

  lemma WrapResidue(c: Carrier, x: int)
    ensures Wrap(c, x) % Modulus(c.bits) == x % Modulus(c.bits)
  {
    WrapConverts(c, x);
    hide Wrap, Modulus;
  }

  lemma LandingStays(step: Step, c: Carrier, x: int)
    ensures Wrap(c, Landing(step, c, x)) == Landing(step, c, x)
  {
    hide Wrap;
    WrapStays(c, Landing(step, c, x));
  }

  lemma NextResidue(x: int, d: int, m: int)
    requires m > 0
    ensures (x % m + d) % m == (x + d) % m
  {
    DivMod(x, m);
    DivMod(x % m + d, m);
    var k, j := x / m, (x % m + d) / m;
    assert k * m + j * m == (k + j) * m;
    ModUnique(x + d, m, k + j, (x % m + d) % m);
  }

  /**
   * Unsigned 64-bit storage keeps an unsigned carrier, whose range test skips the lower bound: with
   * both checks on, a step from inside the domain stays inside it or gives nothing, unless it is
   * `pred` of a lower bound above zero.
   */
  lemma WideStepLeavesDomainIff(step: Step, source: ConstInt, domain: Domain, ptr: PointerBits)
    requires Made(source) && 0 <= domain.low <= Meaning(source) <= domain.high
    ensures var carrier := StepCarrier(step, Unsigned(64), true, true, ptr);
            var f := FoldStep(step, source, Unsigned(64), carrier, true, true, Some(domain));
            && (f.result.Some? ==> Meaning(f.result.value) == Meaning(source) + Delta(step))
            && (f.result.Some? && !(domain.low <= Meaning(f.result.value) <= domain.high)
                <==> step == Pred && Meaning(source) == domain.low && domain.low > 0)
            && (step == Succ ==> (f.result.Some? <==> Meaning(source) < domain.high))
  {
    hide FoldStep, StepCarrier, Readable;
    var carrier := Unsigned(64);
    var x := Meaning(source);
    if !Ok(source) { DisagreeingShape(source); }
    TakesMeaningIff(source, carrier);
    hide Meaning, Ok, Made;
    StepCarrierHolds(step, carrier, true, true, ptr);
    FoldStepComputes(step, source, carrier, carrier, true, true, Some(domain));
    WrapInRange(carrier, domain.high);
    WrapInRange(carrier, x);
    WrapInRange(carrier, x + Delta(step));
    if x + Delta(step) < 0 { ModUnique(-1, TWO_TO_64, -1, TWO_TO_64 - 1); }
  }

  /** `pred(5)` over `5..6000000000` folds to 4 with every check on. */
  lemma WidePredEscapes(ptr: PointerBits)
    ensures var domain := Domain(5, 6_000_000_000);
            var storage := StorageForDomain(domain);
            var carrier := StepCarrier(Pred, storage, true, true, ptr);
            var f := FoldStep(Pred, FromLiteral(5), storage, carrier, true, true, Some(domain));
            f.result.Some? && Meaning(f.result.value) == 4
  {
    var domain := Domain(5, 6_000_000_000);
    FromLiteralOk(5);
    StorageIsSmallest(domain, Unsigned(32));
    StorageIsSmallest(domain, Unsigned(64));
    assert StorageForDomain(domain) == Unsigned(64);
    hide FoldStep, StepCarrier, Ok, Readable, Meaning, FromLiteral, StorageForDomain;
    WideStepLeavesDomainIff(Pred, FromLiteral(5), domain, ptr);
  }

  // ------------------------------------------------------------------ steps on what steps leave behind

  /** Right with both checks on: the neighbour if the domain has it, nothing otherwise. */
  predicate RightStep(f: Folded, next: int, domain: Domain) {
    && (f.result.Some? <==> domain.low <= next <= domain.high)
    && (f.result.Some? ==> Meaning(f.result.value) == next)
  }

  /** `pred` of the lowest value, in a domain that reaches the highest: the one case that wraps around. */
  predicate WrapsAround(step: Step, x: int, storage: Carrier, domain: Option<Domain>) {
    step == Pred && x == Low(storage) && domain.Some? && domain.value.high == High(storage)
  }

  /**
   * A negative narrow constant whose views disagree, as casts and steps leave it. Without the range
   * check, or with a carrier no wider than the storage, it steps as an agreeing constant of the same
   * value does. Otherwise it is taken for a large positive one: nothing comes back, except that the
   * lowest value steps down to the highest if the domain has that.
   */
  lemma DisagreeingStep(step: Step, source: ConstInt, checkOverflow: bool, checkRange: bool,
                        domain: Option<Domain>, ptr: PointerBits)
    requires Made(source) && !Ok(source)
    requires domain.Some? ==> Contains(source.carrier, domain.value)
    ensures var storage := source.carrier;
            var carrier := StepCarrier(step, storage, checkOverflow, checkRange, ptr);
            var f := FoldStep(step, source, storage, carrier, checkOverflow, checkRange, domain);
            if !checkRange || carrier.bits <= storage.bits then
              f == FoldStep(step, FromValue(source.value), storage, carrier, checkOverflow, checkRange, domain)
            else if WrapsAround(step, Meaning(source), storage, domain) then
              f.result.Some? && !f.overflow && Meaning(f.result.value) == High(storage)
            else f == Folded(None, false)
  {
    var storage := source.carrier;
    var carrier := StepCarrier(step, storage, checkOverflow, checkRange, ptr);
    StepCarrierHolds(step, storage, checkOverflow, checkRange, ptr);
    DisagreeingShape(source);
    if carrier.bits <= storage.bits {
      SamePatternSameStep(step, source, storage, carrier, checkOverflow, checkRange, domain);
    } else if !checkRange {
      UnrangedStepAgrees(step, source, carrier, checkOverflow, domain);
    } else {
      RangedStepFails(step, source, carrier, checkOverflow, domain);
    }
  }

  /** On a carrier no wider, the low bits are all that counts. */
  lemma SamePatternSameStep(step: Step, source: ConstInt, storage: Carrier, carrier: Carrier,
                            q: bool, r: bool, domain: Option<Domain>)
    requires Made(source) && !Ok(source) && carrier.bits <= source.carrier.bits
    ensures FoldStep(step, source, storage, carrier, q, r, domain) ==
            FoldStep(step, FromValue(source.value), storage, carrier, q, r, domain)
  {
    SamePatternBelow(source, carrier.bits);
    hide Modulus, RangeAllows, Convert;
  }

  lemma SamePatternBelow(source: ConstInt, w: Width)
    requires Made(source) && !Ok(source) && w <= source.carrier.bits
    ensures source.pattern % Modulus(w) == FromValue(source.value).pattern % Modulus(w)
  {
    NarrowResidue(source.pattern, source.carrier.bits, w);
    NarrowResidue(source.value, source.carrier.bits, w);
    PatternLowBits(source.value, w);
    FromValueOk(source.value);
  }

  /** In a wider signed carrier the source is read as its pattern, which is not negative. */
  lemma WideStart(source: ConstInt, carrier: Carrier, d: int)
    requires Made(source) && !Ok(source) && carrier.Signed? && carrier.bits > source.carrier.bits
    requires d == 1 || d == -1
    ensures var p := source.pattern;
            && Modulus(source.carrier.bits) / 2 <= p < Modulus(source.carrier.bits) <= Modulus(carrier.bits) / 2
            && p % Modulus(carrier.bits) == p && (p + d) % Modulus(carrier.bits) == p + d
            && InRange(carrier, p + d) && p + d < Modulus(carrier.bits) / 2
  {
    DisagreeingShape(source);
    var m, p := Modulus(carrier.bits), source.pattern;
    ModUnique(p, m, 0, p);
    if p + d < m / 2 { ModUnique(p + d, m, 0, p + d); }
  }

  lemma UnrangedStepAgrees(step: Step, source: ConstInt, carrier: Carrier, q: bool, domain: Option<Domain>)
    requires Made(source) && !Ok(source) && carrier.Signed? && carrier.bits > source.carrier.bits
    ensures FoldStep(step, source, source.carrier, carrier, q, false, domain) ==
            FoldStep(step, FromValue(source.value), source.carrier, carrier, q, false, domain)
  {
    hide Readable, FromValue;
    var storage, x, d := source.carrier, source.value, Delta(step);
    var m := Modulus(carrier.bits);
    DisagreeingShape(source);
    WideStart(source, carrier, d);
    FromValueOk(x);
    AgreeingStart(x, carrier);
    var a := AddPattern(carrier, Start(source, carrier), d);
    var b := AddPattern(carrier, Start(FromValue(x), carrier), d);
    NextResidue(x, d, m);
    NarrowResidue(x + d, carrier.bits, storage.bits);
    ResidueShift(source.pattern, x, d, Modulus(storage.bits));
    assert a % Modulus(storage.bits) == b % Modulus(storage.bits);
    hide Modulus, AddPattern;
    SameLowBits(ConstInt(ToInt64(a), a, carrier), ConstInt(ToInt64(b), b, carrier), storage);
  }

  lemma AgreeingStart(x: Int64, carrier: Carrier)
    ensures FromValue(x).pattern % Modulus(carrier.bits) == x % Modulus(carrier.bits)
    ensures carrier.Signed? && InRange(carrier, x) ==> Signedly(carrier, x % Modulus(carrier.bits)) == x
  {
    FromValueOk(x);
    PatternLowBits(x, carrier.bits);
    SignedlyReads(carrier, x);
    WrapInRange(carrier, x);
  }

  lemma ResidueShift(p: int, x: int, d: int, m: int)
    requires m > 0 && p == x + m
    ensures (p + d) % m == (x + d) % m
  {
    DivMod(x + d, m);
    ModUnique(p + d, m, (x + d) / m + 1, (x + d) % m);
  }

  lemma SameLowBits(a: ConstInt, b: ConstInt, target: Carrier)
    requires a.pattern % Modulus(target.bits) == b.pattern % Modulus(target.bits)
    ensures Convert(a, target) == Convert(b, target)
  {
  }

  lemma RangedStepFails(step: Step, source: ConstInt, carrier: Carrier, q: bool, domain: Option<Domain>)
    requires Made(source) && !Ok(source) && carrier.Signed? && carrier.bits > source.carrier.bits
    requires domain.Some? ==> Contains(source.carrier, domain.value)
    ensures var f := FoldStep(step, source, source.carrier, carrier, q, true, domain);
            if WrapsAround(step, Meaning(source), source.carrier, domain) then
              f.result.Some? && !f.overflow && Meaning(f.result.value) == High(source.carrier)
            else f == Folded(None, false)
  {
    hide Readable;
    var storage, d := source.carrier, Delta(step);
    DisagreeingShape(source);
    WideStart(source, carrier, d);
    var p := source.pattern + d;
    hide Modulus;
    ConvertReads(ConstInt(ToInt64(p), p, carrier), storage);
    if p == High(storage) { WrapStays(storage, p); }
  }

  /**
   * With both checks on a step is right exactly when its source's views agree, or the carrier is no
   * wider than the storage, or the right answer is nothing and the step does not wrap around.
   */
  lemma CheckedStepRightIff(step: Step, source: ConstInt, domain: Domain, ptr: PointerBits)
    requires Made(source) && source.carrier != Unsigned(64) && Contains(source.carrier, domain)
    ensures var storage, x := source.carrier, Meaning(source);
            var carrier := StepCarrier(step, storage, true, true, ptr);
            var next := x + Delta(step);
            RightStep(FoldStep(step, source, storage, carrier, true, true, Some(domain)), next, domain) <==>
            || Ok(source)
            || carrier.bits <= storage.bits
            || (!(domain.low <= next <= domain.high) && !WrapsAround(step, x, storage, Some(domain)))
  {
    hide FoldStep, StepCarrier;
    var storage := source.carrier;
    var carrier := StepCarrier(step, storage, true, true, ptr);
    if Ok(source) || carrier.bits <= storage.bits {
      hide Made, Meaning, Ok, Readable;
      CheckedStepExact(step, source, storage, domain, ptr);
    } else {
      DisagreeingStep(step, source, true, true, Some(domain), ptr);
    }
  }

  /** `succ(pred(0))` over a shortint gives nothing, and `pred(pred(-127))` gives 127, unflagged. */
  lemma StepsDoNotCompose(ptr: PointerBits)
    ensures var s, all := Signed(8), Some(Domain(-128, 127));
            var carrier := StepCarrier(Pred, s, true, true, ptr);
            var zero := FoldStep(Pred, FromLiteral(0), s, carrier, true, true, all);
            var low := FoldStep(Pred, FromValue(-127), s, carrier, true, true, all);
            && zero.result.Some? && Meaning(zero.result.value) == -1
            && FoldStep(Succ, zero.result.value, s, StepCarrier(Succ, s, true, true, ptr), true, true, all) ==
                Folded(None, false)
            && low.result.Some? && Meaning(low.result.value) == -128
            && var wrapped := FoldStep(Pred, low.result.value, s, carrier, true, true, all);
               wrapped.result.Some? && Meaning(wrapped.result.value) == 127 && !wrapped.overflow
  {
    var s, all := Signed(8), Some(Domain(-128, 127));
    var carrier := StepCarrier(Pred, s, true, true, ptr);
    StepOnce(0, ptr);
    StepOnce(-127, ptr);
    var zero := FoldStep(Pred, FromLiteral(0), s, carrier, true, true, all).result.value;
    var low := FoldStep(Pred, FromValue(-127), s, carrier, true, true, all).result.value;
    assert StepCarrier(Succ, s, true, true, ptr).bits > 8 && carrier.bits > 8;
    hide FoldStep, StepCarrier, Made, Ok, Readable, Meaning, FromValue, FromLiteral;
    DisagreeingStep(Succ, zero, true, true, all, ptr);
    DisagreeingStep(Pred, low, true, true, all, ptr);
  }

  /** `pred` of zero or a negative shortint above the lowest leaves a constant whose views disagree. */
  lemma StepOnce(x: Int64, ptr: PointerBits)
    requires -128 < x <= 0
    ensures var s, all := Signed(8), Some(Domain(-128, 127));
            var f := FoldStep(Pred, FromValue(x), s, StepCarrier(Pred, s, true, true, ptr), true, true, all);
            && f.result.Some? && Made(f.result.value) && !Ok(f.result.value)
            && f.result.value.carrier == s && Meaning(f.result.value) == x - 1
    ensures x == 0 ==> FromLiteral(0) == FromValue(x)
  {
    var s := Signed(8);
    var carrier := StepCarrier(Pred, s, true, true, ptr);
    FromValueOk(x);
    StepCarrierHolds(Pred, s, true, true, ptr);
    hide FoldStep, StepCarrier, FromValue;
    CheckedStepExact(Pred, FromValue(x), s, Domain(-128, 127), ptr);
    FoldStepComputes(Pred, FromValue(x), s, carrier, true, true, Some(Domain(-128, 127)));
  }
}
