/** Which carrier an integer operation is bound to, stated by the values the carriers hold. */
module CarrierWidths {
  import opened Wrappers
  import opened Carriers
  import opened ConstInts
  import opened ConstExprs
  import opened ArithmeticCarriers

  /** The four widths hold what their number of bits allows, with either sign. */
  lemma RangesInNumbers(c: Carrier, x: int)
    ensures InRange(c, x) <==>
            (c == Signed(8) && -128 <= x <= 127)
            || (c == Unsigned(8) && 0 <= x <= 255)
            || (c == Signed(16) && -32768 <= x <= 32767)
            || (c == Unsigned(16) && 0 <= x <= 65535)
            || (c == Signed(32) && -2147483648 <= x <= 2147483647)
            || (c == Unsigned(32) && 0 <= x <= 4294967295)
            || (c == Signed(64) && -9223372036854775808 <= x <= 9223372036854775807)
            || (c == Unsigned(64) && 0 <= x <= 18446744073709551615)
  {
  }

  /** Every value of `inner` is one of `outer`. */
  predicate Holds(outer: Carrier, inner: Carrier) {
    InRange(outer, Low(inner)) && InRange(outer, High(inner))
  }

  lemma HoldsMeans(outer: Carrier, inner: Carrier)
    ensures Holds(outer, inner) <==> (forall x :: InRange(inner, x) ==> InRange(outer, x))
  {
    assert InRange(inner, Low(inner)) && InRange(inner, High(inner));
  }

  lemma HoldsByWidth(outer: Carrier, inner: Carrier)
    ensures Holds(outer, inner) <==>
            if outer.Signed? && inner.Unsigned? then inner.bits < outer.bits
            else outer.Signed? == inner.Signed? && inner.bits <= outer.bits
  {
  }

  lemma AllHoldByWidth()
    ensures forall outer, inner {:trigger Holds(outer, inner)} ::
              Holds(outer, inner) <==>
              if outer.Signed? && inner.Unsigned? then inner.bits < outer.bits
              else outer.Signed? == inner.Signed? && inner.bits <= outer.bits
  {
    forall outer, inner
      ensures Holds(outer, inner) <==>
              if outer.Signed? && inner.Unsigned? then inner.bits < outer.bits
              else outer.Signed? == inner.Signed? && inner.bits <= outer.bits
    {
      HoldsByWidth(outer, inner);
    }
  }

  /** `c` has at least `least` bits, holds both operands, and no narrower carrier of its sign does. */
  ghost predicate NarrowestFrom(c: Carrier, least: Width, l: Carrier, r: Carrier) {
    && c.bits >= least && Holds(c, l) && Holds(c, r)
    && forall d: Carrier ::
         d.Signed? == c.Signed? && d.bits >= least && Holds(d, l) && Holds(d, r) ==> c.bits <= d.bits
  }

  /**
   * The carrier of `+ - *`: a 64-bit operand decides, the signed one first. Below that the result is
   * signed if an operand is or the operation subtracts, and it is the narrowest of its sign that is
   * at least native and holds both operands.
   */
  lemma ArithmeticWidth(op: Op, l: Carrier, r: Carrier, ptr: PointerBits)
    requires !Divides(op)
    ensures var c := ArithmeticCarrier(op, l, r, ptr);
            if l.bits < 64 && r.bits < 64 then
              && (c.Signed? <==> l.Signed? || r.Signed? || op == Sub)
              && NarrowestFrom(c, ptr, l, r)
            else
              && c.bits == 64
              && (c.Signed? <==> (l.bits == 64 && l.Signed?) || (r.bits == 64 && r.Signed?))
  {
    AllHoldByWidth();
    hide Holds;
  }

  /** A common carrier is the narrowest of its sign that holds both; only unsigned 64 bits beside a sign has none. */
  lemma CommonWidth(l: Carrier, r: Carrier)
    ensures var c := CommonCarrier(l, r);
            if l.Unsigned? && r.Unsigned? then c.Unsigned? && NarrowestFrom(c, 8, l, r)
            else if l.Signed? && r.Signed? then c.Signed? && NarrowestFrom(c, 8, l, r)
            else if Holds(Signed(64), l) && Holds(Signed(64), r) then c.Signed? && NarrowestFrom(c, 8, l, r)
            else c == Unsigned(64)
  {
    AllHoldByWidth();
    hide Holds;
  }

  /** An operand takes the other's unsigned carrier exactly if that carrier holds it, by value or by carrier. */
  lemma AdaptedMeans(x: Operand, other: Operand)
    requires x.constant.Some? ==> Readable(x.constant.value)
    ensures Adapted(x, other) ==
            if other.carrier.Unsigned?
               && (|| (x.constant.Some? && 0 <= Meaning(x.constant.value) <= High(other.carrier))
                   || Holds(other.carrier, x.carrier))
            then other.carrier else x.carrier
  {
    if x.constant.Some? { FitsExact(x.constant.value, other.carrier); }
  }

  /**
   * The carrier of a division, from the two carriers its operands are converted to first: with a
   * 64-bit one it has 64 bits and the sign of either; else it is the native signed carrier if that
   * holds both, the native unsigned one if that does, and signed 64 bits if neither does.
   */
  lemma DivisionWidth(l: Operand, r: Operand, ptr: PointerBits)
    ensures var c, lc, rc := DivisionCarrier(l, r, ptr), Adapted(l, r), Adapted(r, l);
            if lc.bits == 64 || rc.bits == 64 then c.bits == 64 && (c.Signed? <==> lc.Signed? || rc.Signed?)
            else if Holds(Signed(ptr), lc) && Holds(Signed(ptr), rc) then c == Signed(ptr)
            else if Holds(Unsigned(ptr), lc) && Holds(Unsigned(ptr), rc) then c == Unsigned(ptr)
            else c == Signed(64)
  {
    AllHoldByWidth();
    hide Adapted, Holds;
  }

  lemma FitsByValue(x: Operand, target: Carrier)
    requires x.constant.Some? ==> Readable(x.constant.value)
    ensures ConstantFits(x, target) <==> x.constant.Some? && InRange(target, Meaning(x.constant.value))
  {
    if x.constant.Some? { FitsExact(x.constant.value, target); }
  }

  /**
   * The carrier of a comparison: of two operands of one sign and less than 64 bits the wider one's;
   * of two signs the other's carrier if it holds a constant operand's value, the left one tried
   * first; else that of an addition.
   */
  lemma ComparisonWidth(l: Operand, r: Operand, ptr: PointerBits)
    requires l.constant.Some? ==> Readable(l.constant.value)
    requires r.constant.Some? ==> Readable(r.constant.value)
    ensures var c, lc, rc := ComparisonCarrier(l, r, ptr), l.carrier, r.carrier;
            if lc.Signed? == rc.Signed? && lc.bits < 64 && rc.bits < 64 then
              (c == lc || c == rc) && Holds(c, lc) && Holds(c, rc)
            else if lc.Signed? == rc.Signed? then c.bits == 64 && c.Signed? == lc.Signed?
            else if l.constant.Some? && InRange(rc, Meaning(l.constant.value)) then c == rc
            else if r.constant.Some? && InRange(lc, Meaning(r.constant.value)) then c == lc
            else if lc.bits == 64 || rc.bits == 64 then
              c.bits == 64 && (c.Signed? <==> lc == Signed(64) || rc == Signed(64))
            else c.Signed? && NarrowestFrom(c, ptr, lc, rc)
  {
    FitsByValue(l, r.carrier);
    FitsByValue(r, l.carrier);
    ArithmeticWidth(Add, l.carrier, r.carrier, ptr);
    CommonWidth(l.carrier, r.carrier);
    AllHoldByWidth();
    hide ConstantFits, InRange, Meaning, Holds, Readable;
    hide ArithmeticCarrier;
  }

  /** The folder gives a value the narrowest carrier that holds it, the signed one where both of a width do. */
  lemma ValueWidth(value: Int64)
    ensures var c := FromValue(value).carrier;
            && InRange(c, value)
            && (c.Signed? <==> InRange(Signed(c.bits), value))
            && forall d: Carrier :: InRange(d, value) ==> c.bits <= d.bits
  {
    var c := FromValue(value).carrier;
    forall d: Carrier | InRange(d, value) ensures c.bits <= d.bits {
      RangesInNumbers(d, value);
    }
  }

  /** Unchecked, an operation raises on a zero divisor alone: it yields the exact result, wrapped to the carrier. */
  lemma UncheckedWraps(op: Op, c: Carrier, a: int, b: int)
    requires InRange(c, a) && InRange(c, b)
    ensures var exact := Exact(op, a, b);
            Operate(op, c, a, b, false) ==
            if exact.None? then DivideByZero else Outcome.Value(Wrap(c, exact.value))
  {
    hide Wrap, Quotient, Remainder;
    if Divides(op) && b != 0 {
      DivisionStays(c, a, b);
      StaysWrapped(c, Quotient(a, b));
      StaysWrapped(c, Remainder(a, b));
      if b == -1 && c.Signed? && a == Low(c) {
        LowestNegated(c);
        hide Low, Modulus;
      }
    }
  }

  lemma StaysWrapped(c: Carrier, x: int)
    ensures InRange(c, x) ==> Wrap(c, x) == x
  {
  }

  /** Dividing the lowest value by minus one comes back to it. */
  lemma LowestNegated(c: Carrier)
    requires c.Signed?
    ensures Quotient(Low(c), -1) == -Low(c) && Wrap(c, -Low(c)) == Low(c)
  {
    var m := Modulus(c.bits);
    ModUnique(m / 2, m, 0, m / 2);
  }
}
