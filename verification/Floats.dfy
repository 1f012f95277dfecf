/** binary32 numbers by their bits, and which of them the format admits. */
module Floats {
  import opened Bytes
  import opened CborHead
  import opened Numbers

  type Bits = b: int | 0 <= b < 0x1_0000_0000

  function Exponent(b: Bits): nat {
    b / 0x80_0000 % 0x100
  }

  /** The significand as a whole number, with its implicit leading bit unless subnormal. */
  function Significand(b: Bits): nat {
    b % 0x80_0000 + if Exponent(b) == 0 then 0 else 0x80_0000
  }

  /** The power of two that scales the significand, bias and fraction bits taken off. */
  function Scale(b: Bits): int {
    (if Exponent(b) == 0 then 1 else Exponent(b)) - 150
  }

  function Magnitude(b: Bits): real
    requires Exponent(b) < 255
  {
    if Scale(b) >= 0 then Significand(b) as real * Pow2(Scale(b)) as real
    else Significand(b) as real / Pow2(-Scale(b)) as real
  }

  /** Finite, and a whole number after scaling by 1024; the sign decides nothing. */
  function CheckFloat(b: Bits): Option<Error> {
    if Exponent(b) == 255 then Some(NotFinite)
    else
      var scaled := Magnitude(b) * 1024.0;
      if !Whole(scaled) then Some(OffGrid) else None
  }

  predicate Whole(r: real) {
    r == r.Floor as real
  }

  lemma RealProduct(a: int, b: int)
    ensures (a * b) as real == a as real * b as real
  {
  }

  lemma QuotientTimes(f: real, d: real)
    requires d != 0.0
    ensures f * d / d == f && f / d * d == f
  {
  }

  lemma RealAssociates(a: real, b: real, c: real)
    ensures a * (b * c) == a * b * c
  {
  }

  lemma WholeInt(k: int)
    ensures Whole(k as real)
  {
  }

  lemma QuotientEquals(m: int, d: int, k: int)
    requires d > 0
    ensures m as real / d as real == k as real <==> m == k * d
  {
    RealProduct(k, d);
    QuotientTimes(m as real, d as real);
    QuotientTimes(k as real, d as real);
  }

  lemma WholeQuotient(m: nat, d: nat)
    requires d > 0
    ensures Whole(m as real / d as real) <==> m % d == 0
  {
    var q := m as real / d as real;
    QuotientEquals(m, d, m / d);
    QuotientEquals(m, d, q.Floor);
    WholeInt(m / d);
    if Whole(q) {
      RemainderOfMultiple(q.Floor, d);
    }
  }

  lemma RemainderOfMultiple(k: int, d: nat)
    requires d > 0 && k * d >= 0
    ensures (k * d) % d == 0
  {
    if k >= 0 {
      QuotientIs(k * d, d, k);
    } else {
      MulStep(0, -k, d);
    }
  }

  lemma ScaledUp(m: nat, p: nat, scaled: real)
    requires scaled == m as real * p as real * 1024.0
    ensures Whole(scaled)
  {
    hide Whole;
    RealProduct(m, p);
    RealProduct(m * p, 1024);
    WholeInt(m * p * 1024);
  }

  lemma ScaledReal(r: real, a: real, b: real)
    requires a != 0.0
    ensures r / a * (a * b) == r * b
  {
    QuotientTimes(r, a);
    RealAssociates(r / a, a, b);
  }

  lemma ScaledWithin(m: nat, x: nat, y: nat, scaled: real)
    requires x > 0 && x * y == 1024 && scaled == m as real / x as real * 1024.0
    ensures Whole(scaled)
  {
    hide Whole;
    RealProduct(x, y);
    RealProduct(m, y);
    ScaledReal(m as real, x as real, y as real);
    WholeInt(m * y);
  }

  lemma ScaledBelow(m: nat, x: nat, d: nat, scaled: real)
    requires d > 0 && x == 1024 * d && scaled == m as real / x as real * 1024.0
    ensures Whole(scaled) <==> m % d == 0
  {
    RealProduct(1024, d);
    QuotientTimes(m as real, d as real);
    QuotientTimes(m as real, x as real);
    var q, r := m as real / x as real, m as real / d as real;
    RealAssociates(q, 1024.0, d as real);
    RealCancels(q * 1024.0, r, d as real);
    WholeQuotient(m, d);
  }

  lemma RealCancels(a: real, b: real, c: real)
    requires c != 0.0 && a * c == b * c
    ensures a == b
  {
  }

  /**
    On the bits: a finite number is on the 1/1024 grid exactly when the significand has no set
    bit below the position of 1/1024.
   */
  lemma GridBits(b: Bits)
    ensures CheckFloat(b) == None
       <==> Exponent(b) < 255 && (Scale(b) >= -10 || Significand(b) % Pow2(-10 - Scale(b)) == 0)
  {
    if Exponent(b) < 255 {
      hide Significand, Pow2, Whole, Exponent;
      var m, s, scaled := Significand(b), Scale(b), Magnitude(b) * 1024.0;
      Pow2Of10();
      if s >= 0 {
        ScaledUp(m, Pow2(s), scaled);
      } else if s >= -10 {
        Pow2Add(-s, 10 + s);
        ScaledWithin(m, Pow2(-s), Pow2(10 + s), scaled);
      } else {
        Pow2Add(10, -10 - s);
        ScaledBelow(m, Pow2(-s), Pow2(-10 - s), scaled);
      }
    }
  }

  lemma Pow2Of10()
    ensures Pow2(10) == 1024
  {
    Pow2Add(5, 5);
  }

  lemma {:induction false} Pow2Grows(k: nat)
    requires k >= 24
    ensures Pow2(k) >= 0x100_0000
  {
    if k == 24 {
      Pow2Of10();
      Pow2Add(10, 10);
      Pow2Add(20, 4);
      assert Pow2(4) == 2 * Pow2(3) == 4 * Pow2(2) == 8 * Pow2(1) == 16 * Pow2(0);
    } else {
      Pow2Grows(k - 1);
    }
  }

  lemma {:induction false} Pow2Divides(k: nat)
    requires k <= 23
    ensures 0x80_0000 == Pow2(23 - k) * Pow2(k)
  {
    Pow2Of10();
    Pow2Add(10, 10);
    Pow2Add(20, 3);
    assert Pow2(3) == 2 * Pow2(2) == 4 * Pow2(1) == 8 * Pow2(0);
    Pow2Add(23 - k, k);
  }

  lemma AddsMultiple(f: nat, d: nat, k: nat)
    requires d > 0
    ensures (f + k * d) % d == f % d
  {
    QuotientIs(f % d + (f / d + k) * d, d, f / d + k);
  }

  /** Below 2^13 the implicit bit is a multiple of what the fraction must be one of, or else too small. */
  lemma GridNormal(e: nat, f: nat)
    requires 0 < e < 140 && f < 0x80_0000
    ensures (f + 0x80_0000) % Pow2(140 - e) == 0 <==> 117 <= e && f % Pow2(140 - e) == 0
  {
    if e < 117 {
      Pow2Grows(140 - e);
      SmallRemainder(f + 0x80_0000, Pow2(140 - e));
    } else {
      Pow2Divides(140 - e);
      AddsMultiple(f, Pow2(140 - e), Pow2(23 - (140 - e)));
    }
  }

  lemma SmallRemainder(m: nat, d: nat)
    requires m < d
    ensures m % d == m
  {
  }

  lemma GridSubnormal(f: nat)
    requires f < 0x80_0000
    ensures f % Pow2(139) == 0 <==> f == 0
  {
    Pow2Grows(139);
    SmallRemainder(f, Pow2(139));
  }

  /**
    On the 32 bits alone, the exponent being bits 23 to 30 and the fraction the 23 below: zero of
    either sign, everything from 2^13 up that is finite, and between 2^-10 and that what has no
    fraction bit worth less than 1/1024.
   */
  lemma GridExactly(b: Bits)
    ensures var e, f := b / 8388608 % 256, b % 8388608;
            CheckFloat(b) == None
            <==> (e == 0 && f == 0) || (117 <= e < 140 && f % Pow2(140 - e) == 0) || 140 <= e < 255
  {
    var e, f := Exponent(b), b % 0x80_0000;
    GridBits(b);
    hide Pow2, CheckFloat;
    if e == 0 {
      GridSubnormal(f);
    } else if e < 140 {
      GridNormal(e, f);
    }
  }
}
