/** Left-to-right exponentiation on the bits of the exponent. */
module Exponentiation {
  import opened Arithmetic
  import opened Bigits

  /** base without its factors of two, and the number of bits of a number. */
  function OddPart(base: nat): nat
    requires base > 0
  {
    if base % 2 == 0 then OddPart(base / 2) else base
  }

  function BitSize(n: nat): nat {
    if n == 0 then 0 else 1 + BitSize(n / 2)
  }

  lemma {:induction false} BitSizeBound(n: nat)
    ensures n < Pow(2, BitSize(n))
  {
    if n > 0 {
      BitSizeBound(n / 2);
    }
  }

  /** The single-bit mask when r bits of the exponent are still to be used. */
  function Mask(r: nat): nat {
    if r == 0 then 0 else Pow(2, r - 1)
  }

  /** The exponent without its r lowest bits. */
  function Prefix(n: nat, r: nat): nat {
    if r == 0 then n else Prefix(n, r - 1) / 2
  }

  lemma HalfMask(r: nat)
    requires r > 0
    ensures Mask(r) / 2 == Mask(r - 1) < Mask(r)
  {
  }

  lemma {:induction false} PrefixIsQuotient(n: nat, r: nat)
    ensures Prefix(n, r) == n / Pow(2, r)
  {
    if r > 0 {
      PrefixIsQuotient(n, r - 1);
      HalfQuotient(n, Pow(2, r - 1));
    }
  }

  lemma HalfQuotient(n: nat, m: nat)
    requires m > 0
    ensures (n / m) / 2 == n / (2 * m)
  {
    var q, b := (n / m) / 2, (n / m) % 2;
    assert n == (n / m) * m + n % m;
    assert (2 * q + b) * m == q * (2 * m) + b * m;
    MulMonotone(0, b, m);
    MulMonotone(b, 1, m);
    Quotient(n, 2 * m, q, b * m + n % m);
  }

  lemma Quotient(n: nat, d: nat, q: nat, rest: nat)
    requires d > 0 && n == q * d + rest && rest < d
    ensures n / d == q && n % d == rest
  {
    var q' := n / d;
    assert n == q' * d + n % d;
    assert (q - q') * d == n % d - rest;
    if q' < q {
      MulMonotone(1, q - q', d);
    } else if q < q' {
      MulMonotone(q - q', -1, d);
    }
  }

  /** Taking one more bit of the exponent: the tested bit is the lowest of the longer prefix. */
  lemma PrefixStep(n: nat, r: nat)
    requires r > 0
    ensures Prefix(n, r - 1) == 2 * Prefix(n, r) + (n / Mask(r)) % 2
  {
    PrefixIsQuotient(n, r - 1);
  }

  lemma LeadingBit(n: nat, r: nat)
    requires Pow(2, r) <= n < Pow(2, r + 1)
    ensures Prefix(n, r) == 1
  {
    PrefixIsQuotient(n, r);
    Quotient(n, Pow(2, r), 1, n - Pow(2, r));
  }

  lemma {:induction false} PrefixBound(n: nat, r: nat)
    ensures Prefix(n, r) <= n && (r > 0 ==> 2 * Prefix(n, r) <= n)
  {
    if r > 0 {
      PrefixBound(n, r - 1);
    }
  }

  lemma PowerBelow(odd: nat, bitSize: nat, k: nat, n: nat)
    requires odd < Pow(2, bitSize) && bitSize * k < 28 * n
    ensures Pow(odd, k) < Weight(n)
  {
    PowBaseMonotone(odd, Pow(2, bitSize), k);
    PowOfPow(2, bitSize, k);
    PowStrict(2, bitSize * k, 28 * n);
    WeightIsPowerOfTwo(n);
  }

  /** Every intermediate power has room below the top bigit. */
  lemma PowerFits(odd: nat, bitSize: nat, k: nat, power: nat, r: nat, capacity: nat)
    requires 0 < odd < Pow(2, bitSize) && k == Prefix(power, r)
    requires bitSize * power / BIGIT_SIZE + 2 <= capacity
    ensures Pow(odd, k) < Weight(capacity - 1)
    ensures Pow(odd, k) < Weight(capacity)
  {
    PrefixBound(power, r);
    MulMonotone(k, power, bitSize);
    PowerBelow(odd, bitSize, k, capacity - 1);
    WeightMonotone(capacity - 1, capacity);
  }

  /** A power that is still to be squared takes at most half of the bigits. */
  lemma HalfPowerFits(odd: nat, bitSize: nat, power: nat, r: nat, capacity: nat)
    requires odd < Pow(2, bitSize) && r > 0
    requires bitSize * power / BIGIT_SIZE + 2 <= capacity && capacity % 2 == 0
    ensures Pow(odd, Prefix(power, r)) < Weight(capacity / 2)
  {
    PrefixBound(power, r);
    MulMonotone(2 * Prefix(power, r), power, bitSize);
    assert bitSize * (2 * Prefix(power, r)) == 2 * (bitSize * Prefix(power, r));
    PowerBelow(odd, bitSize, Prefix(power, r), capacity / 2);
  }

  /** One step of left-to-right exponentiation. */
  lemma SquaredPower(odd: nat, n: nat, r: nat)
    requires r > 0
    ensures var p := Pow(odd, Prefix(n, r));
            Pow(odd, Prefix(n, r - 1)) == p * p * (if (n / Mask(r)) % 2 != 0 then odd else 1)
  {
    var k := Prefix(n, r);
    PowAdd(odd, k, k);
    PrefixStep(n, r);
  }

  /** The loop that finds the mask, and the shift that drops the leading bit. */
  method FirstMask(n: nat) returns (mask: nat, ghost r: nat)
    requires n > 0
    ensures mask == Mask(r) && Prefix(n, r) == 1
  {
    mask, r := 1, 0;
    while n >= mask
      invariant mask == Pow(2, r) && (r > 0 ==> n >= Pow(2, r - 1))
      decreases n - mask
    {
      mask := mask * 2;
      r := r + 1;
    }
    mask := mask / 4;
    r := r - 1;
    LeadingBit(n, r);
  }

  lemma HalfTwice(x: int, y: int)
    ensures x * (2 * y) == (2 * x) * y
  {
  }

  /** The first loop of AssignPowerUInt16: factors of two are left for a final shift. */
  method RemoveTwos(base: nat) returns (odd: nat, shifts: nat)
    requires base > 0
    ensures odd == OddPart(base) && 0 < odd <= base && odd * Pow(2, shifts) == base
  {
    odd, shifts := base, 0;
    while odd % 2 == 0
      decreases odd
      invariant 0 < odd <= base && odd * Pow(2, shifts) == base && OddPart(odd) == OddPart(base)
    {
      HalfTwice(odd / 2, Pow(2, shifts));
      odd := odd / 2;
      shifts := shifts + 1;
    }
  }

  /** The second loop of AssignPowerUInt16. */
  method CountBits(n: nat) returns (bitSize: nat)
    ensures bitSize == BitSize(n) && n < Pow(2, bitSize)
    ensures n < 0x1_0000 ==> bitSize <= 16
  {
    bitSize := 0;
    var tmp: nat := n;
    while tmp != 0
      invariant bitSize + BitSize(tmp) == BitSize(n)
      invariant n < 0x1_0000 ==> tmp * Pow(2, bitSize) <= n
    {
      MulMonotone(2 * (tmp / 2), tmp, Pow(2, bitSize));
      HalfTwice(tmp / 2, Pow(2, bitSize));
      assert Pow(2, bitSize + 1) == 2 * Pow(2, bitSize);
      assert n < 0x1_0000 ==> (tmp / 2) * Pow(2, bitSize + 1) <= n;
      tmp := tmp / 2;
      bitSize := bitSize + 1;
    }
    BitSizeBound(n);
    if n < 0x1_0000 {
      PowAdd(2, 8, 8);
      SmallBitSize(n, 16);
    }
  }

  lemma {:induction false} SmallBitSize(n: nat, bits: nat)
    requires n < Pow(2, bits)
    ensures BitSize(n) <= bits
  {
    if n > 0 {
      SmallBitSize(n / 2, bits - 1);
    }
  }

  /** The exponentiation in a 64-bit word: no product wraps, and a multiplication is delayed only
      in the last step, because the word is then too big for another squaring. */
  method WordPower(odd: nat, bitSize: nat, powerExponent: nat, mask0: nat, ghost r0: nat)
    returns (thisValue: nat, mask: nat, delayed: bool, ghost r: nat)
    requires 0 < odd < Pow(2, bitSize) && bitSize <= 16 && odd < 0x1_0000
    requires mask0 == Mask(r0) && Prefix(powerExponent, r0) == 1
    ensures mask == Mask(r) && 0 < thisValue < DOUBLE_CHUNK
    ensures thisValue * (if delayed then odd else 1) == Pow(odd, Prefix(powerExponent, r))
  {
    mask, r := mask0, r0;
    thisValue, delayed := odd, false;
    assert Pow(odd, 1) == odd * Pow(odd, 0);
    while mask != 0 && thisValue <= 0xFFFF_FFFF
      invariant mask == Mask(r) && 0 < thisValue < DOUBLE_CHUNK
      invariant delayed ==> thisValue > 0xFFFF_FFFF
      invariant thisValue * (if delayed then odd else 1) == Pow(odd, Prefix(powerExponent, r))
      decreases mask
    {
      SquaredPower(odd, powerExponent, r);
      WordSquare(thisValue);
      thisValue := thisValue * thisValue;
      if (powerExponent / mask) % 2 != 0 {
        var highBitsZero := thisValue < Pow(2, 64 - bitSize);
        SpareBits(thisValue, odd, bitSize);
        if highBitsZero {
          thisValue := thisValue * odd;
        } else {
          delayed := true;
        }
      }
      HalfMask(r);
      mask := mask / 2;
      r := r - 1;
    }
  }

  lemma WordSquare(value: nat)
    requires 0 < value <= 0xFFFF_FFFF
    ensures 0 < value * value < DOUBLE_CHUNK
  {
    MulMonotone(1, value, value);
    MulMonotone(value, 0xFFFF_FFFF, value);
  }

  lemma {:induction false} SmallPowerOfTwo(k: nat)
    requires k <= 16
    ensures Pow(2, k) <= 0x1_0000
  {
    PowAdd(2, 8, 8);
    PowMonotone(2, k, 16);
  }

  /** What the test of the high bits decides. */
  lemma SpareBits(value: nat, odd: nat, bitSize: nat)
    requires 0 < odd < Pow(2, bitSize) && bitSize <= 16 && value > 0
    ensures value < Pow(2, 64 - bitSize) ==> 0 < value * odd < DOUBLE_CHUNK
    ensures value >= Pow(2, 64 - bitSize) ==> value > 0xFFFF_FFFF
  {
    var high, low := Pow(2, 64 - bitSize), Pow(2, bitSize);
    PowAdd(2, 64 - bitSize, bitSize);
    TwoTo64();
    SmallPowerOfTwo(bitSize);
    if value < high {
      MulStrict(odd, low, value);
      MulMonotone(value, high, low);
      MulMonotone(1, odd, value);
    } else if high <= 0xFFFF_FFFF {
      MulMonotone(high, 0xFFFF_FFFF, low);
    }
  }

  lemma PowerParts(odd: nat, shifts: nat, base: nat, e: nat)
    requires odd * Pow(2, shifts) == base
    ensures shifts * e >= 0
    ensures Pow(odd, e) * Pow(2, shifts * e) == Pow(base, e)
  {
    MulMonotone(0, shifts, e);
    PowOfPow(2, shifts, e);
    PowProduct(odd, Pow(2, shifts), e);
  }
}
