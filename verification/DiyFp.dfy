/** Floating-point numbers with a 64-bit significand and no hidden bit (diy-fp.h, diy-fp.cc). */
module DiyFps {
  import opened Arithmetic
  import opened Ieee

  const WORD: int := 0x1_0000_0000_0000_0000
  const HALF_WORD: int := 0x1_0000_0000
  const MSB: int := 0x8000_0000_0000_0000

  class DiyFp {
    var f: nat
    var e: int

    predicate Valid()
      reads this
    {
      f < WORD
    }

    constructor (f0: nat, e0: int)
      requires f0 < WORD
      ensures Valid() && f == f0 && e == e0
    {
      f, e := f0, e0;
    }

    /** The rounded upper half of the 128-bit product, put together from four 32-bit products. */
    method Multiply(other: DiyFp)
      requires Valid() && other.Valid()
      modifies this
      ensures Valid() && f == Rounded(old(f) * old(other.f)) && e == old(e) + old(other.e) + 64
    {
      var a, b := f / HALF_WORD, f % HALF_WORD;
      var c, d := other.f / HALF_WORD, other.f % HALF_WORD;
      PartialProducts(f, other.f, a, b, c, d);
      var ac, bc, ad, bd := a * c, b * c, a * d, b * d;
      assert ac < WORD && bc < WORD && ad < WORD && bd < WORD;
      var tmp := bd / HALF_WORD + ad % HALF_WORD + bc % HALF_WORD;
      tmp := tmp + 0x8000_0000;
      assert tmp < WORD;
      var resultF := ac + ad / HALF_WORD + bc / HALF_WORD + tmp / HALF_WORD;
      CarryOver(ac, ad, bc, bd, f * other.f);
      e := e + other.e + 64;
      f := resultF;
    }

    /** Shifts the significand up until its top bit is set, first in steps of ten. */
    method Normalize()
      requires Valid() && f != 0
      modifies this
      ensures Valid() && f >= MSB && e <= old(e) && f == old(f) * Pow(2, old(e) - e)
    {
      ghost var f0, e0 := f, e;
      var g, x := f, e;
      while g / 0x40_0000_0000_0000 == 0
        invariant 0 < g < WORD && x <= e0 && g == f0 * Pow(2, e0 - x)
        decreases WORD - g
      {
        ShiftMore(f0, g, e0 - x, 10);
        g, x := g * 1024, x - 10;
      }
      while g / MSB == 0
        invariant 0 < g < WORD && x <= e0 && g == f0 * Pow(2, e0 - x)
        decreases WORD - g
      {
        ShiftMore(f0, g, e0 - x, 1);
        g, x := g * 2, x - 1;
      }
      f, e := g, x;
    }
  }

  /** Rounded half up to a multiple of 2^64. */
  function Rounded(product: nat): nat {
    (product + MSB) / WORD
  }

  lemma PartialProducts(f: nat, g: nat, a: nat, b: nat, c: nat, d: nat)
    requires f < WORD && g < WORD
    requires a == f / HALF_WORD && b == f % HALF_WORD && c == g / HALF_WORD && d == g % HALF_WORD
    ensures f * g == (a * c) * WORD + (a * d + b * c) * HALF_WORD + b * d
    ensures 0 <= a * c <= (HALF_WORD - 1) * (HALF_WORD - 1)
    ensures 0 <= a * d <= (HALF_WORD - 1) * (HALF_WORD - 1)
    ensures 0 <= b * c <= (HALF_WORD - 1) * (HALF_WORD - 1)
    ensures 0 <= b * d <= (HALF_WORD - 1) * (HALF_WORD - 1)
  {
    assert f == a * HALF_WORD + b && g == c * HALF_WORD + d;
    FourProducts(a, b, c, d);
    ProductBelow(a, c, HALF_WORD - 1);
    ProductBelow(a, d, HALF_WORD - 1);
    ProductBelow(b, c, HALF_WORD - 1);
    ProductBelow(b, d, HALF_WORD - 1);
  }

  lemma FourProducts(a: int, b: int, c: int, d: int)
    ensures (a * HALF_WORD + b) * (c * HALF_WORD + d) == (a * c) * WORD + (a * d + b * c) * HALF_WORD + b * d
  {
    var x := c * HALF_WORD + d;
    assert (a * HALF_WORD + b) * x == (a * x) * HALF_WORD + b * x;
    assert a * x == (a * c) * HALF_WORD + a * d;
    assert b * x == (b * c) * HALF_WORD + b * d;
  }

  lemma ProductBelow(x: nat, y: nat, n: nat)
    requires x <= n && y <= n
    ensures 0 <= x * y <= n * n
  {
    MulMonotone(x, n, y);
    MulMonotone(y, n, n);
    MulMonotone(0, x, y);
  }

  /** The carries of the partial products are those of the whole product. */
  lemma CarryOver(ac: nat, ad: nat, bc: nat, bd: nat, product: nat)
    requires product == ac * WORD + (ad + bc) * HALF_WORD + bd
    requires ac <= (HALF_WORD - 1) * (HALF_WORD - 1) && ad <= (HALF_WORD - 1) * (HALF_WORD - 1)
    requires bc <= (HALF_WORD - 1) * (HALF_WORD - 1) && bd <= (HALF_WORD - 1) * (HALF_WORD - 1)
    ensures var tmp := bd / HALF_WORD + ad % HALF_WORD + bc % HALF_WORD + 0x8000_0000;
            var result := ac + ad / HALF_WORD + bc / HALF_WORD + tmp / HALF_WORD;
            result == Rounded(product) && result < WORD
  {
    var tmp := bd / HALF_WORD + ad % HALF_WORD + bc % HALF_WORD + 0x8000_0000;
    var result := ac + ad / HALF_WORD + bc / HALF_WORD + tmp / HALF_WORD;
    var rest := (tmp % HALF_WORD) * HALF_WORD + bd % HALF_WORD;
    assert product + MSB == result * WORD + rest;
    assert 0 <= rest < WORD;
  }

  lemma ShiftMore(f: nat, g: nat, shift: nat, more: nat)
    requires g == f * Pow(2, shift) && (more == 1 || more == 10)
    ensures f * Pow(2, shift + more) == g * (if more == 1 then 2 else 1024)
  {
    PowAdd(2, shift, more);
    assert Pow(2, 1) == 2 && Pow(2, 10) == 1024;
    assert f * (Pow(2, shift) * Pow(2, more)) == (f * Pow(2, shift)) * Pow(2, more);
  }

  predicate HasHiddenBit(s: nat)
    ensures s < 2 * HIDDEN_BIT ==> (HasHiddenBit(s) <==> s >= HIDDEN_BIT)
  {
    s / HIDDEN_BIT % 2 == 1
  }

  /** Double(DiyFp): the double with exactly the given value, for significands that came from rounding;
      exponents out of range give infinity or zero. */
  method DiyFpToUint64(significand0: nat, exponent0: int) returns (d: Double)
    requires significand0 <= 2 * HIDDEN_BIT
    ensures var top := significand0 == 2 * HIDDEN_BIT;
            var s, x := if top then HIDDEN_BIT else significand0, if top then exponent0 + 1 else exponent0;
            if x >= MAX_EXPONENT then d == INFINITY
            else if x < DENORMAL_EXPONENT then d == 0
            else d < INFINITY && Units(d) == s * Pow(2, x + 1074)
  {
    hide Pow, Units, HasHiddenBit;
    var significand, exponent := DropLowBits(significand0, exponent0);
    if exponent >= MAX_EXPONENT {
      return INFINITY;
    }
    if exponent < DENORMAL_EXPONENT {
      return 0;
    }
    ghost var s, x := significand, exponent;
    while exponent > DENORMAL_EXPONENT && !HasHiddenBit(significand)
      invariant significand < 2 * HIDDEN_BIT && DENORMAL_EXPONENT <= exponent <= x
      invariant significand * Pow(2, exponent + 1074) == s * Pow(2, x + 1074)
      decreases exponent - DENORMAL_EXPONENT
    {
      HalveExponent(significand, exponent + 1074);
      significand, exponent := significand * 2, exponent - 1;
    }
    var biasedExponent: nat;
    if exponent == DENORMAL_EXPONENT && !HasHiddenBit(significand) {
      biasedExponent := 0;
    } else {
      biasedExponent := exponent + 1075;
    }
    Encode(significand, exponent, biasedExponent);
    d := significand % HIDDEN_BIT + biasedExponent * HIDDEN_BIT;
  }

  /** The bit pattern of a significand and an exponent that fit each other. */
  lemma Encode(s: nat, x: int, biased: nat)
    requires s < 2 * HIDDEN_BIT && DENORMAL_EXPONENT <= x < MAX_EXPONENT
    requires s >= HIDDEN_BIT || x == DENORMAL_EXPONENT
    requires biased == if s < HIDDEN_BIT then 0 else x + 1075
    ensures var d := s % HIDDEN_BIT + biased * HIDDEN_BIT;
            0 <= d < INFINITY && Units(d) == s * Pow(2, x + 1074)
  {
    hide Pow;
    var d := s % HIDDEN_BIT + biased * HIDDEN_BIT;
    assert d / HIDDEN_BIT == biased && d % HIDDEN_BIT == s % HIDDEN_BIT;
    assert Significand(d) == s && Exponent(d) == x;
  }

  /** The first loop of DiyFpToUint64: at most one bit too many, and then it is a zero. */
  method DropLowBits(significand0: nat, exponent0: int) returns (significand: nat, exponent: int)
    requires significand0 <= 2 * HIDDEN_BIT
    ensures significand < 2 * HIDDEN_BIT
    ensures if significand0 == 2 * HIDDEN_BIT then significand == HIDDEN_BIT && exponent == exponent0 + 1
            else significand == significand0 && exponent == exponent0
  {
    significand, exponent := significand0, exponent0;
    while significand > 2 * HIDDEN_BIT - 1
      invariant significand <= 2 * HIDDEN_BIT
      invariant significand == 2 * HIDDEN_BIT ==> significand == significand0 && exponent == exponent0
      invariant significand < 2 * HIDDEN_BIT ==>
          if significand0 == 2 * HIDDEN_BIT then significand == HIDDEN_BIT && exponent == exponent0 + 1
          else significand == significand0 && exponent == exponent0
      decreases significand
    {
      significand, exponent := significand / 2, exponent + 1;
    }
  }

  lemma HalveExponent(s: nat, n: nat)
    requires n > 0
    ensures (s * 2) * Pow(2, n - 1) == s * Pow(2, n)
  {
  }
}
