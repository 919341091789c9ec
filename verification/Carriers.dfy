/** Fixed-width integer carriers of the generated C++ and their wrap-around. */
module Carriers {

  /** The widths the ordinal integer primitives have. */
  type Width = w: nat | w == 8 || w == 16 || w == 32 || w == 64 witness 8

  datatype Carrier = Signed(bits: Width) | Unsigned(bits: Width)

  /** The number of values a carrier of width `w` has. */
  function Modulus(w: Width): (m: int)
    ensures m > 0 && m % 2 == 0
  {
    if w == 8 then 0x100
    else if w == 16 then 0x1_0000
    else if w == 32 then 0x1_0000_0000
    else 0x1_0000_0000_0000_0000
  }

  function Low(c: Carrier): int {
    if c.Signed? then -(Modulus(c.bits) / 2) else 0
  }

  function High(c: Carrier): int {
    if c.Signed? then Modulus(c.bits) / 2 - 1 else Modulus(c.bits) - 1
  }

  predicate InRange(c: Carrier, x: int) {
    Low(c) <= x <= High(c)
  }

  /** Conversion of an integer to a carrier: keep the low bits, read them back with the carrier's sign. */
  function Wrap(c: Carrier, x: int): (r: int)
    ensures InRange(c, r)
    ensures InRange(c, x) ==> r == x
  {
    var m := Modulus(c.bits);
    var low := x % m;
    WrapInRange(c, x);
    if c.Signed? && low >= m / 2 then low - m else low
  }

  lemma WrapInRange(c: Carrier, x: int)
    ensures var m := Modulus(c.bits);
            InRange(c, x) ==> x % m == if x < 0 then x + m else x
  {
    var m := Modulus(c.bits);
    if InRange(c, x) {
      if x < 0 {
        ModUnique(x, m, -1, x + m);
      } else {
        ModUnique(x, m, 0, x);
      }
    }
  }

  /** Euclidean remainder is determined by any quotient that leaves a remainder in range. */
  lemma ModUnique(x: int, m: int, q: int, r: int)
    requires m > 0 && x == q * m + r && 0 <= r < m
    ensures x % m == r && x / m == q
  {
    var q', r' := x / m, x % m;
    DivMod(x, m);
    SameQuotient(m, q, r, q', r');
  }

  lemma DivMod(x: int, m: int)
    requires m > 0
    ensures x == (x / m) * m + x % m && 0 <= x % m < m
  {
  }

  lemma SameQuotient(m: int, q: int, r: int, q': int, r': int)
    requires m > 0 && 0 <= r < m && 0 <= r' < m
    requires q * m + r == q' * m + r'
    ensures q == q' && r == r'
  {
    assert (q' - q) * m == r - r';
    assert (q - q') * m == r' - r;
    if q < q' {
      Scaled(m, q' - q);
    } else if q' < q {
      Scaled(m, q - q');
    }
  }

  lemma Scaled(m: int, d: int)
    requires m > 0 && d > 0
    ensures d * m >= m
  {
  }
}
