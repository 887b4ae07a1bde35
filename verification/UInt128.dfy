/** The 128-bit words of fixed-dtoa.cc, as two 64-bit halves. */
module UInt128s {
  import opened Arithmetic

  const TWO32: nat := 0x1_0000_0000
  const TWO64: nat := 0x1_0000_0000_0000_0000
  const TWO128: nat := 0x1_0000_0000_0000_0000_0000_0000_0000_0000

  /** x << k on a 64-bit word. */
  function ShiftLeft(x: nat, k: nat): (r: nat)
    ensures r < TWO64
  {
    x * Pow(2, k) % TWO64
  }

  function ShiftRight(x: nat, k: nat): nat {
    x / Pow(2, k)
  }

  lemma Split64(k: nat)
    requires k <= 64
    ensures Pow(2, k) * Pow(2, 64 - k) == TWO64 && Pow(2, k) <= TWO64
  {
    WordSizes();
    PowAdd(2, k, 64 - k);
    PowMonotone(2, k, 64);
  }

  lemma WordSizes()
    ensures Pow(2, 64) == TWO64 && Pow(2, 128) == TWO128
  {
    hide Pow;
    TwoTo64();
    PowAdd(2, 64, 64);
  }

  class UInt128 {
    var high: nat
    var low: nat

    ghost predicate Valid()
      reads this
    {
      high < TWO64 && low < TWO64
    }

    ghost function Value(): nat
      reads this
    {
      high * TWO64 + low
    }

    constructor (high: nat, low: nat)
      requires high < TWO64 && low < TWO64
      ensures Valid() && Value() == high * TWO64 + low
    {
      this.high, this.low := high, low;
    }

    /** Word by word, each product and carry within 64 bits. */
    method Multiply(multiplicand: nat)
      requires Valid() && multiplicand < TWO32 && Value() * multiplicand < TWO128
      modifies this
      ensures Valid() && Value() == old(Value()) * multiplicand
    {
      ghost var value := Value();
      ghost var l0, l1, h0, h1 := low % TWO32, low / TWO32, high % TWO32, high / TWO32;
      ghost var p0, p1, p2, p3 := l0 * multiplicand, l1 * multiplicand, h0 * multiplicand, h1 * multiplicand;
      Partial(l0, multiplicand);
      Partial(l1, multiplicand);
      Partial(h0, multiplicand);
      Partial(h1, multiplicand);
      WholeProduct(l0, l1, h0, h1, multiplicand, value);
      var accumulator := low % TWO32 * multiplicand;
      assert accumulator == p0 < TWO64;
      var part := accumulator % TWO32;
      accumulator := accumulator / TWO32;
      ghost var c0 := accumulator;
      accumulator := accumulator + low / TWO32 * multiplicand;
      assert accumulator == c0 + p1 < TWO64;
      low := accumulator % TWO32 * TWO32 + part;
      accumulator := accumulator / TWO32;
      ghost var c1 := accumulator;
      accumulator := accumulator + high % TWO32 * multiplicand;
      assert accumulator == c1 + p2 < TWO64;
      part := accumulator % TWO32;
      accumulator := accumulator / TWO32;
      ghost var c2 := accumulator;
      accumulator := accumulator + high / TWO32 * multiplicand;
      assert accumulator == c2 + p3 < TWO64;
      high := accumulator % TWO32 * TWO32 + part;
      Carried(p0, p1, p2, p3, c0, c1, c2, accumulator, value * multiplicand, low, high);
    }

    method Shift(shiftAmount: int)
      requires Valid() && -64 <= shiftAmount <= 64
      modifies this
      ensures Valid()
      ensures Value() == if shiftAmount >= 0 then old(Value()) / Pow(2, shiftAmount) else old(Value()) * Pow(2, -shiftAmount) % TWO128
    {
      ghost var h, l := high, low;
      WordSizes();
      if shiftAmount == 0 {
        assert Pow(2, 0) == 1;
      } else if shiftAmount == -64 {
        high := low;
        low := 0;
        WholeLeft(h, l);
      } else if shiftAmount == 64 {
        low := high;
        high := 0;
        DivIs(h * TWO64 + l, TWO64, h, l);
      } else if shiftAmount <= 0 {
        LeftParts(h, l, -shiftAmount);
        high := ShiftLeft(high, -shiftAmount);
        high := high + ShiftRight(low, 64 + shiftAmount);
        low := ShiftLeft(low, -shiftAmount);
      } else {
        RightParts(h, l, shiftAmount);
        low := ShiftRight(low, shiftAmount);
        low := low + ShiftLeft(high, 64 - shiftAmount);
        high := ShiftRight(high, shiftAmount);
      }
    }

    /** Takes the part above bit power off, and answers it. */
    method DivModPowerOf2(power: nat) returns (result: nat)
      requires Valid() && 0 < power < 128 && Value() / Pow(2, power) < 0x8000_0000
      modifies this
      ensures Valid() && result == old(Value()) / Pow(2, power) && Value() == old(Value()) % Pow(2, power)
    {
      ghost var value, h, l := Value(), high, low;
      if power >= 64 {
        HighQuotient(h, l, power);
        result := ShiftRight(high, power - 64);
        high := high - result * Pow(2, power - 64);
      } else {
        LowQuotient(h, l, power);
        var partLow := ShiftRight(low, power);
        var partHigh := ShiftLeft(high, 64 - power);
        result := partLow + partHigh;
        high := 0;
        low := low - partLow * Pow(2, power);
      }
    }

    method IsZero() returns (zero: bool)
      requires Valid()
      ensures zero <==> Value() == 0
    {
      zero := high == 0 && low == 0;
    }

    method BitAt(position: nat) returns (bit: nat)
      requires Valid() && position < 128
      ensures bit == Value() / Pow(2, position) % 2
    {
      if position >= 64 {
        HighBit(high, low, position);
        bit := ShiftRight(high, position - 64) % 2;
      } else {
        LowBit(high, low, position);
        bit := ShiftRight(low, position) % 2;
      }
    }
  }

  lemma Partial(x: nat, m: nat)
    requires x < TWO32 && m < TWO32
    ensures 0 <= x * m <= (TWO32 - 1) * (TWO32 - 1)
  {
    MulMonotone(0, x, m);
    MulMonotone(x, TWO32 - 1, m);
  }

  lemma WholeProduct(l0: nat, l1: nat, h0: nat, h1: nat, m: nat, value: nat)
    requires value == l0 + l1 * TWO32 + (h0 + h1 * TWO32) * TWO64
    ensures value * m == l0 * m + (l1 * m) * TWO32 + (h0 * m) * TWO64 + (h1 * m) * TWO32 * TWO64
  {
    Distribute4(l0, l1 * TWO32, h0 * TWO64, h1 * TWO32 * TWO64, m);
    Commute(l1, TWO32, m);
    Commute(h0, TWO64, m);
    Commute(h1, TWO32 * TWO64, m);
  }

  lemma Distribute4(a: int, b: int, c: int, d: int, m: int)
    ensures (a + b + c + d) * m == a * m + b * m + c * m + d * m
  {
  }

  lemma Commute(a: int, k: int, m: int)
    ensures a * k * m == a * m * k
  {
  }

  /** The carries put the four products together; the last one is zero where the product fits. */
  lemma Carried(p0: nat, p1: nat, p2: nat, p3: nat, c0: nat, c1: nat, c2: nat, last: nat, product: nat, low: nat, high: nat)
    requires product == p0 + p1 * TWO32 + p2 * TWO64 + p3 * TWO32 * TWO64 < TWO128
    requires c0 == p0 / TWO32 && c1 == (c0 + p1) / TWO32 && c2 == (c1 + p2) / TWO32 && last == c2 + p3
    requires low == (c0 + p1) % TWO32 * TWO32 + p0 % TWO32 && high == last % TWO32 * TWO32 + (c1 + p2) % TWO32
    ensures last / TWO32 == 0 && low < TWO64 && high < TWO64 && high * TWO64 + low == product
  {
    assert low == p0 + p1 * TWO32 - c1 * TWO64;
    assert last % TWO32 * TWO32 == last * TWO32 - last / TWO32 * TWO64;
    assert high == c1 + p2 + p3 * TWO32 - last / TWO32 * TWO64;
    assert high * TWO64 + low == product - last / TWO32 * TWO128;
  }

  lemma WholeLeft(h: nat, l: nat)
    requires h < TWO64 && l < TWO64
    ensures (h * TWO64 + l) * TWO64 % TWO128 == l * TWO64
  {
    assert (h * TWO64 + l) * TWO64 == h * TWO128 + l * TWO64;
    DivIs((h * TWO64 + l) * TWO64, TWO128, h, l * TWO64);
  }

  /** What is shifted out of the low word to the left comes into the high one. */
  lemma LeftParts(h: nat, l: nat, k: nat)
    requires h < TWO64 && l < TWO64 && 0 < k < 64
    ensures var high, low := ShiftLeft(h, k) + ShiftRight(l, 64 - k), ShiftLeft(l, k);
            high < TWO64 && high * TWO64 + low == (h * TWO64 + l) * Pow(2, k) % TWO128
  {
    var p, q: nat := Pow(2, k), Pow(2, 64 - k);
    Split64(k);
    LeftProduct(h, l, p, q);
  }

  lemma LeftProduct(h: nat, l: nat, p: nat, q: nat)
    requires h < TWO64 && l < TWO64 && p > 0 && q > 0 && p * q == TWO64
    ensures var high, low := h * p % TWO64 + l / q, l * p % TWO64;
            high < TWO64 && high * TWO64 + low == (h * TWO64 + l) * p % TWO128
  {
    ShiftedOut(l, p, q);
    ShiftedOut(h, p, q);
    var hi, lo := h % q * p, l % q * p;
    var high := hi + l / q;
    assert high < TWO64 by {
      QuotientFits(l, p, q);
      MulMonotone(h % q, q - 1, p);
      assert (q - 1) * p == TWO64 - p;
    }
    MulByTwo64(h, l, p);
    assert (h * TWO64 + l) * p == (h / q * TWO64 + hi) * TWO64 + (l / q * TWO64 + lo);
    assert (h * TWO64 + l) * p == h / q * TWO128 + (high * TWO64 + lo);
    DivIs((h * TWO64 + l) * p, TWO128, h / q, high * TWO64 + lo);
  }

  lemma MulByTwo64(h: nat, l: nat, p: nat)
    ensures (h * TWO64 + l) * p == h * p * TWO64 + l * p
  {
  }

  lemma QuotientFits(l: nat, p: nat, q: nat)
    requires l < TWO64 && p > 0 && q > 0 && p * q == TWO64
    ensures l / q < p
  {
    if l / q >= p {
      MulMonotone(p, l / q, q);
    }
  }

  /** x * p, split at the word's end. */
  lemma ShiftedOut(x: nat, p: nat, q: nat)
    requires p > 0 && q > 0 && p * q == TWO64
    ensures x * p == x / q * TWO64 + x % q * p && x % q * p < TWO64 && x * p % TWO64 == x % q * p
  {
    var a, b := x / q, x % q;
    assert x == a * q + b;
    assert (a * q + b) * p == a * (p * q) + b * p;
    MulStrict(b, q, p);
    DivIs(x * p, TWO64, a, b * p);
  }

  lemma RightParts(h: nat, l: nat, k: nat)
    requires h < TWO64 && l < TWO64 && 0 < k < 64
    ensures var high, low := ShiftRight(h, k), ShiftRight(l, k) + ShiftLeft(h, 64 - k);
            high < TWO64 && low < TWO64 && high * TWO64 + low == (h * TWO64 + l) / Pow(2, k)
  {
    var p, q: nat := Pow(2, k), Pow(2, 64 - k);
    Split64(k);
    RightQuotient(h, l, p, q);
  }

  lemma RightQuotient(h: nat, l: nat, p: nat, q: nat)
    requires h < TWO64 && l < TWO64 && p > 0 && q > 0 && p * q == TWO64
    ensures var high, low := h / p, l / p + h * q % TWO64;
            high < TWO64 && low < TWO64 && high * TWO64 + low == (h * TWO64 + l) / p
  {
    ShiftedOut(h, q, p);
    RightFits(h % p, p, q);
    QuotientFits(l, q, p);
    QuotientIsLess(h, p);
    RightIs(h, l, p, q, h % p * q);
  }

  lemma RightFits(b: nat, p: nat, q: nat)
    requires b < p && p * q == TWO64
    ensures b * q + q <= TWO64
  {
    MulMonotone(b + 1, p, q);
    Distribute(b, 1, q);
  }

  lemma QuotientIsLess(h: nat, p: nat)
    requires p > 0
    ensures h / p <= h
  {
    MulMonotone(1, p, h / p);
  }

  lemma RightIs(h: nat, l: nat, p: nat, q: nat, bq: nat)
    requires p > 0 && p * q == TWO64 && bq == h % p * q
    ensures (h * TWO64 + l) / p == h / p * TWO64 + (l / p + bq)
  {
    var a, b, c, d: nat := h / p, h % p, l / p, l % p;
    Quotient3(a, b, c, d, p, q, h, l);
    DivIs(h * TWO64 + l, p, a * TWO64 + (b * q + c), d);
  }

  lemma Quotient3(a: nat, b: nat, c: nat, d: nat, p: nat, q: nat, h: nat, l: nat)
    requires h == a * p + b && l == c * p + d && p * q == TWO64
    ensures h * TWO64 + l == (a * TWO64 + (b * q + c)) * p + d
  {
    assert (a * p + b) * TWO64 == a * p * TWO64 + b * TWO64;
    assert b * (p * q) == b * q * p;
    assert (a * TWO64 + (b * q + c)) * p == a * TWO64 * p + b * q * p + c * p;
    assert a * p * TWO64 == a * TWO64 * p;
  }

  lemma HighQuotient(h: nat, l: nat, power: nat)
    requires h < TWO64 && l < TWO64 && 64 <= power < 128
    ensures var r := ShiftRight(h, power - 64);
            && r == (h * TWO64 + l) / Pow(2, power)
            && 0 <= h - r * Pow(2, power - 64) < TWO64
            && (h - r * Pow(2, power - 64)) * TWO64 + l == (h * TWO64 + l) % Pow(2, power)
  {
    hide Pow;
    var p: nat := Pow(2, power - 64);
    WordSizes();
    PowAdd(2, power - 64, 64);
    var a, b := h / p, h % p;
    assert h == a * p + b;
    HighSplit(h, l, p, a, b);
    DivIs(h * TWO64 + l, p * TWO64, a, b * TWO64 + l);
  }

  lemma HighSplit(h: nat, l: nat, p: nat, a: nat, b: nat)
    requires h == a * p + b && b < p && l < TWO64
    ensures h * TWO64 + l == a * (p * TWO64) + (b * TWO64 + l) && b * TWO64 + l < p * TWO64
  {
    assert a * p * TWO64 == a * (p * TWO64);
    MulMonotone(b + 1, p, TWO64);
  }

  /** The quotient by a power that divides 2^64. */
  lemma LowSplit(h: nat, l: nat, p: nat, q: nat)
    requires p > 0 && p * q == TWO64
    ensures (h * TWO64 + l) / p == h * q + l / p && (h * TWO64 + l) % p == l % p
  {
    var a, b: nat := l / p, l % p;
    Associate(h, q, p);
    Distribute(h * q, a, p);
    DivIs(h * TWO64 + l, p, h * q + a, b);
  }

  lemma LowQuotient(h: nat, l: nat, power: nat)
    requires h < TWO64 && l < TWO64 && 0 < power < 64 && (h * TWO64 + l) / Pow(2, power) < 0x8000_0000
    ensures var a := ShiftRight(l, power);
            && a + ShiftLeft(h, 64 - power) == (h * TWO64 + l) / Pow(2, power)
            && 0 <= l - a * Pow(2, power) < TWO64
            && l - a * Pow(2, power) == (h * TWO64 + l) % Pow(2, power)
  {
    hide Pow;
    Split64(power);
    LowQuotientAt(h, l, Pow(2, power), Pow(2, 64 - power));
  }

  lemma LowQuotientAt(h: nat, l: nat, p: nat, q: nat)
    requires p > 0 && p * q == TWO64 && l < TWO64 && (h * TWO64 + l) / p < 0x8000_0000
    ensures l / p + h * q % TWO64 == (h * TWO64 + l) / p && l - l / p * p == (h * TWO64 + l) % p
    ensures 0 <= l - l / p * p < TWO64
  {
    LowSplit(h, l, p, q);
    NoWrap(h * q, l / p);
    LowRest(l, p);
  }

  lemma NoWrap(x: nat, y: nat)
    requires x + y < 0x8000_0000
    ensures x % TWO64 == x
  {
  }

  lemma LowRest(l: nat, p: nat)
    requires p > 0
    ensures l - l / p * p == l % p <= l
  {
  }

  lemma HighBit(h: nat, l: nat, position: nat)
    requires h < TWO64 && l < TWO64 && 64 <= position < 128
    ensures ShiftRight(h, position - 64) == (h * TWO64 + l) / Pow(2, position)
  {
    HighQuotient(h, l, position);
  }

  lemma LowBit(h: nat, l: nat, position: nat)
    requires h < TWO64 && l < TWO64 && position < 64
    ensures ShiftRight(l, position) % 2 == (h * TWO64 + l) / Pow(2, position) % 2
  {
    hide Pow;
    Split64(position);
    HalfOf(64 - position);
    LowParity(h, l, Pow(2, position), Pow(2, 63 - position), Pow(2, 64 - position));
  }

  lemma LowParity(h: nat, l: nat, p: nat, r: nat, q: nat)
    requires p > 0 && p * q == TWO64 && q == 2 * r
    ensures l / p % 2 == (h * TWO64 + l) / p % 2
  {
    LowSplit(h, l, p, q);
    EvenProduct(h, r);
    EvenSum(h * q, l / p);
  }

  lemma EvenSum(x: nat, y: nat)
    requires x % 2 == 0
    ensures (x + y) % 2 == y % 2
  {
  }

  lemma EvenProduct(h: nat, r: nat)
    ensures h * (2 * r) % 2 == 0
  {
    assert h * (2 * r) == 2 * (h * r);
  }
}
