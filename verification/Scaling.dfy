/** The exact ratio digit generation starts from (bignum-dtoa.cc). */
module Scaling {
  import opened Arithmetic
  import opened Bigits
  import opened Bignums
  import opened ShortestDigits
  import Exponentiation

  /** The two sides of the ratio 2^exponent / 10^estimatedPower, each power on the side where its
      exponent is positive. */
  ghost function Above(exponent: int, estimatedPower: int): nat {
    Pow(2, Max(exponent, 0)) * Pow(10, Max(-estimatedPower, 0))
  }

  ghost function Below(exponent: int, estimatedPower: int): nat {
    Pow(10, Max(estimatedPower, 0)) * Pow(2, Max(-exponent, 0))
  }

  lemma Sides(exponent: int, estimatedPower: int)
    ensures exponent >= 0 && estimatedPower >= 0 ==>
              Above(exponent, estimatedPower) == Pow(2, exponent) && Below(exponent, estimatedPower) == Pow(10, estimatedPower)
    ensures exponent < 0 <= estimatedPower ==>
              && Above(exponent, estimatedPower) == 1
              && Below(exponent, estimatedPower) == Pow(10, estimatedPower) * Pow(2, -exponent)
    ensures exponent < 0 && estimatedPower < 0 ==>
              Above(exponent, estimatedPower) == Pow(10, -estimatedPower) && Below(exponent, estimatedPower) == Pow(2, -exponent)
  {
    hide Pow;
    One();
  }

  /** The exponents of doubles and of their decimal magnitudes lie well within these. */
  predicate InRange(significand: nat, exponent: int, estimatedPower: int) {
    0 < significand < DOUBLE_CHUNK && -1100 <= exponent <= 1000 && -350 <= estimatedPower <= 350
  }

  lemma {:induction false} TenBelowSixteen(k: nat)
    ensures Pow(10, k) <= Pow(2, 4 * k)
  {
    if k > 0 {
      TenBelowSixteen(k - 1);
      PowAdd(2, 4, 4 * (k - 1));
      assert Pow(2, 4) == 16;
    }
  }

  lemma TenBelowWeight(k: nat, m: nat, n: nat)
    requires 4 * k + m < 28 * n
    ensures Pow(10, k) * Pow(2, m) < Weight(n)
  {
    TenBelowSixteen(k);
    MulMonotone(Pow(10, k), Pow(2, 4 * k), Pow(2, m));
    PowAdd(2, 4 * k, m);
    PowStrict(2, 4 * k + m, 28 * n);
    WeightIsPowerOfTwo(n);
  }

  /** A power of ten leaves room for the shifts and products that follow. */
  lemma PowerIsShort(b: Bignum, k: nat)
    requires b.Normal() && b.Value() == Pow(10, k) && k <= 350
    ensures b.usedDigits <= 60
  {
    hide Weight, Pow;
    var n := 60;
    assert Pow(10, k) * Pow(2, 0) == Pow(10, k) by { One(); }
    TenBelowWeight(k, 0, n);
    b.LengthFromValue(n);
  }

  lemma ThreeBits()
    ensures Exponentiation.OddPart(10) == 5 && Exponentiation.BitSize(5) == 3
  {
  }

  method Double(b: Bignum)
    requires b.Normal() && b.usedDigits < 100
    modifies b, b.bigits
    ensures b.Normal() && b.Value() == 2 * old(b.Value()) && b.usedDigits <= old(b.usedDigits) + 1
  {
    hide Bignum.Valid, Bignum.Value, Bignum.IsClamped, Pow;
    One();
    NormalParts(b);
    b.ShiftLeft(1);
    PartsNormal(b);
  }

  /** factor * 2^shift. */
  method AssignShifted(b: Bignum, factor: nat, shift: nat)
    requires b.Normal() && factor < DOUBLE_CHUNK
    modifies b, b.bigits
    ensures b.Normal() && b.Value() == factor * Pow(2, shift) && b.usedDigits <= 4
  {
    hide Bignum.Value, Bignum.IsClamped, Pow, Weight, Bignum.Valid;
    NormalParts(b);
    b.AssignUInt64(factor);
    b.ShiftLeft(shift);
    PartsNormal(b);
  }

  /** 2^shift. */
  method AssignPowerOfTwo(b: Bignum, shift: nat)
    requires b.Normal()
    modifies b, b.bigits
    ensures b.Normal() && b.Value() == Pow(2, shift) && b.usedDigits <= 4
  {
    hide Bignum.Value, Bignum.IsClamped, Pow, Weight, Bignum.Valid;
    NormalParts(b);
    b.AssignUInt16(1);
    b.ShiftLeft(shift);
    PartsNormal(b);
  }

  /** 10^power * 2^shift. */
  method AssignPowerOfTen(b: Bignum, power: nat, shift: nat)
    requires b.Normal() && power <= 350
    modifies b, b.bigits
    ensures b.Normal() && b.Value() == Pow(10, power) * Pow(2, shift) && b.usedDigits <= 61
  {
    hide Bignum.Value, Bignum.IsClamped, Pow, Weight, Bignum.Valid;
    ThreeBits();
    NormalParts(b);
    b.AssignPowerUInt16(10, power);
    PowerIsShort(b, power);
    b.ShiftLeft(shift);
    PartsNormal(b);
  }

  method Copy(b: Bignum, other: Bignum)
    requires b.Normal() && other.Normal() && b.bigits != other.bigits
    modifies b, b.bigits
    ensures b.Normal() && b.Value() == other.Value() && b.usedDigits == other.usedDigits
  {
    hide Bignum.Value, Bignum.IsClamped, Bignum.Valid;
    NormalParts(b);
    NormalParts(other);
    b.AssignBignum(other);
    PartsNormal(b);
  }

  /** A power of ten times a 64-bit word. */
  method TimesSignificand(b: Bignum, power: nat, significand: nat)
    requires b.Normal() && b.Value() == Pow(10, power) && power <= 350 && 0 < significand < DOUBLE_CHUNK
    modifies b, b.bigits
    ensures b.Normal() && b.Value() == Pow(10, power) * significand && b.usedDigits <= 60
  {
    hide Bignum.Value, Bignum.IsClamped, Pow, Weight, Bignum.Valid;
    NormalParts(b);
    ProductFits(b, power, significand, b.bigits.Length);
    b.MultiplyByUInt64(significand);
    PartsNormal(b);
    b.LengthFromValue(60);
  }

  lemma NormalParts(b: Bignum)
    requires b.Normal()
    ensures b.Valid() && b.IsClamped()
  {
  }

  lemma PartsNormal(b: Bignum)
    requires b.Valid() && b.IsClamped()
    ensures b.Normal()
  {
  }

  method InitialScaledStartValuesPositiveExponent(significand: nat, exponent: int, estimatedPower: int,
      needBoundaryDeltas: bool, numerator: Bignum, denominator: Bignum, deltaMinus: Bignum, deltaPlus: Bignum)
    requires InRange(significand, exponent, estimatedPower) && exponent >= 0 && estimatedPower >= 0
    requires numerator.Normal() && denominator.Normal() && deltaMinus.Normal() && deltaPlus.Normal()
    requires Separate(numerator, denominator, deltaMinus, deltaPlus) && deltaMinus != deltaPlus
    modifies numerator, numerator.bigits, denominator, denominator.bigits
    modifies deltaMinus, deltaMinus.bigits, deltaPlus, deltaPlus.bigits
    ensures numerator.Normal() && denominator.Normal() && deltaMinus.Normal() && deltaPlus.Normal()
    ensures numerator.usedDigits <= 90 && denominator.usedDigits <= 90 && (needBoundaryDeltas ==> deltaPlus.usedDigits <= 90)
    ensures var s := if needBoundaryDeltas then 2 else 1;
            && numerator.Value() == s * (significand * Pow(2, exponent))
            && denominator.Value() == s * Pow(10, estimatedPower)
    ensures needBoundaryDeltas ==> deltaMinus.Value() == deltaPlus.Value() == Pow(2, exponent)
    ensures !needBoundaryDeltas ==>
              deltaMinus.Value() == old(deltaMinus.Value()) && deltaPlus.Value() == old(deltaPlus.Value())
  {
    hide Bignum.Normal, Bignum.Value, Pow;
    One();
    AssignShifted(numerator, significand, exponent);
    AssignPowerOfTen(denominator, estimatedPower, 0);
    if needBoundaryDeltas {
      Double(denominator);
      Double(numerator);
      AssignPowerOfTwo(deltaPlus, exponent);
      AssignPowerOfTwo(deltaMinus, exponent);
    }
  }

  method InitialScaledStartValuesNegativeExponentPositivePower(significand: nat, exponent: int, estimatedPower: int,
      needBoundaryDeltas: bool, numerator: Bignum, denominator: Bignum, deltaMinus: Bignum, deltaPlus: Bignum)
    requires InRange(significand, exponent, estimatedPower) && exponent < 0 <= estimatedPower
    requires numerator.Normal() && denominator.Normal() && deltaMinus.Normal() && deltaPlus.Normal()
    requires Separate(numerator, denominator, deltaMinus, deltaPlus) && deltaMinus != deltaPlus
    modifies numerator, numerator.bigits, denominator, denominator.bigits
    modifies deltaMinus, deltaMinus.bigits, deltaPlus, deltaPlus.bigits
    ensures numerator.Normal() && denominator.Normal() && deltaMinus.Normal() && deltaPlus.Normal()
    ensures numerator.usedDigits <= 90 && denominator.usedDigits <= 90 && (needBoundaryDeltas ==> deltaPlus.usedDigits <= 90)
    ensures var s := if needBoundaryDeltas then 2 else 1;
            && numerator.Value() == s * significand
            && denominator.Value() == s * (Pow(10, estimatedPower) * Pow(2, -exponent))
    ensures needBoundaryDeltas ==> deltaMinus.Value() == deltaPlus.Value() == 1
    ensures !needBoundaryDeltas ==>
              deltaMinus.Value() == old(deltaMinus.Value()) && deltaPlus.Value() == old(deltaPlus.Value())
  {
    hide Bignum.Normal, Bignum.Value, Pow;
    One();
    AssignShifted(numerator, significand, 0);
    AssignPowerOfTen(denominator, estimatedPower, -exponent);
    if needBoundaryDeltas {
      Double(denominator);
      Double(numerator);
      AssignPowerOfTwo(deltaPlus, 0);
      AssignPowerOfTwo(deltaMinus, 0);
    }
  }

  /** A power of ten can still be multiplied by a 64-bit word. */
  lemma ProductFits(b: Bignum, k: nat, factor: nat, limit: nat)
    requires b.Normal() && b.Value() == Pow(10, k) && k <= 350 && 0 < factor < DOUBLE_CHUNK && limit == b.bigits.Length
    ensures b.Mantissa() * factor < Weight(limit)
    ensures Pow(10, k) * factor < Weight(60)
  {
    hide Weight, Pow;
    b.MantissaBelowValue();
    TwoTo64();
    MulMonotone(b.Mantissa(), b.Value(), factor);
    MulStrict(factor, Pow(2, 64), Pow(10, k));
    TenBelowWeight(k, 64, 60);
    WeightMonotone(60, limit);
  }

  /** The numerator first serves as the power of ten that scales everything else. */
  method InitialScaledStartValuesNegativeExponentNegativePower(significand: nat, exponent: int, estimatedPower: int,
      needBoundaryDeltas: bool, numerator: Bignum, denominator: Bignum, deltaMinus: Bignum, deltaPlus: Bignum)
    requires InRange(significand, exponent, estimatedPower) && exponent < 0 && estimatedPower < 0
    requires numerator.Normal() && denominator.Normal() && deltaMinus.Normal() && deltaPlus.Normal()
    requires Separate(numerator, denominator, deltaMinus, deltaPlus) && deltaMinus != deltaPlus
    modifies numerator, numerator.bigits, denominator, denominator.bigits
    modifies deltaMinus, deltaMinus.bigits, deltaPlus, deltaPlus.bigits
    ensures numerator.Normal() && denominator.Normal() && deltaMinus.Normal() && deltaPlus.Normal()
    ensures numerator.usedDigits <= 90 && denominator.usedDigits <= 90 && (needBoundaryDeltas ==> deltaPlus.usedDigits <= 90)
    ensures var s := if needBoundaryDeltas then 2 else 1;
            && numerator.Value() == s * (Pow(10, -estimatedPower) * significand)
            && denominator.Value() == s * Pow(2, -exponent)
    ensures needBoundaryDeltas ==> deltaMinus.Value() == deltaPlus.Value() == Pow(10, -estimatedPower)
    ensures !needBoundaryDeltas ==>
              deltaMinus.Value() == old(deltaMinus.Value()) && deltaPlus.Value() == old(deltaPlus.Value())
  {
    hide Bignum.Normal, Bignum.Value, Pow;
    One();
    var powerTen := numerator;
    AssignPowerOfTen(powerTen, -estimatedPower, 0);
    if needBoundaryDeltas {
      Copy(deltaPlus, powerTen);
      Copy(deltaMinus, powerTen);
    }
    TimesSignificand(numerator, -estimatedPower, significand);
    AssignPowerOfTwo(denominator, -exponent);
    if needBoundaryDeltas {
      Double(numerator);
      Double(denominator);
    }
  }

  /** How much the common denominator is enlarged to make the distances to the boundaries integers. */
  function Enlarged(needBoundaryDeltas: bool, lowerBoundaryIsCloser: bool): nat {
    if !needBoundaryDeltas then 1 else if lowerBoundaryIsCloser then 4 else 2
  }

  /** numerator / denominator == significand * 2^exponent / 10^estimatedPower exactly, and over the same
      denominator the deltas are the distances to the two half-way neighbours. */
  method InitialScaledStartValues(significand: nat, exponent: int, lowerBoundaryIsCloser: bool,
      estimatedPower: int, needBoundaryDeltas: bool,
      numerator: Bignum, denominator: Bignum, deltaMinus: Bignum, deltaPlus: Bignum)
    requires InRange(significand, exponent, estimatedPower) && (exponent >= 0 ==> estimatedPower >= 0)
    requires numerator.Normal() && denominator.Normal() && deltaMinus.Normal() && deltaPlus.Normal()
    requires Separate(numerator, denominator, deltaMinus, deltaPlus) && deltaMinus != deltaPlus
    modifies numerator, numerator.bigits, denominator, denominator.bigits
    modifies deltaMinus, deltaMinus.bigits, deltaPlus, deltaPlus.bigits
    ensures numerator.Normal() && denominator.Normal() && deltaMinus.Normal() && deltaPlus.Normal()
    ensures var s := Enlarged(needBoundaryDeltas, lowerBoundaryIsCloser);
            var above, below := Above(exponent, estimatedPower), Below(exponent, estimatedPower);
            && numerator.Value() == s * (significand * above)
            && denominator.Value() == s * below
            && (needBoundaryDeltas ==> deltaMinus.Value() == above && deltaPlus.Value() == (s / 2) * above)
    ensures !needBoundaryDeltas ==>
              deltaMinus.Value() == old(deltaMinus.Value()) && deltaPlus.Value() == old(deltaPlus.Value())
  {
    hide Bignum.Value, Bignum.Normal, Pow, Above, Below;
    Sides(exponent, estimatedPower);
    if exponent >= 0 {
      InitialScaledStartValuesPositiveExponent(significand, exponent, estimatedPower, needBoundaryDeltas,
                                               numerator, denominator, deltaMinus, deltaPlus);
    } else if estimatedPower >= 0 {
      InitialScaledStartValuesNegativeExponentPositivePower(significand, exponent, estimatedPower, needBoundaryDeltas,
                                                            numerator, denominator, deltaMinus, deltaPlus);
    } else {
      InitialScaledStartValuesNegativeExponentNegativePower(significand, exponent, estimatedPower, needBoundaryDeltas,
                                                            numerator, denominator, deltaMinus, deltaPlus);
    }
    if needBoundaryDeltas && lowerBoundaryIsCloser {
      Enlarge(numerator, denominator, deltaMinus, deltaPlus);
    }
  }

  /** The lower neighbour is closer: everything doubles but its delta. */
  method Enlarge(numerator: Bignum, denominator: Bignum, deltaMinus: Bignum, deltaPlus: Bignum)
    requires numerator.Normal() && denominator.Normal() && deltaMinus.Normal() && deltaPlus.Normal()
    requires Separate(numerator, denominator, deltaMinus, deltaPlus) && deltaMinus != deltaPlus
    requires numerator.usedDigits < 100 && denominator.usedDigits < 100 && deltaPlus.usedDigits < 100
    modifies numerator, numerator.bigits, denominator, denominator.bigits, deltaPlus, deltaPlus.bigits
    ensures numerator.Normal() && denominator.Normal() && deltaMinus.Normal() && deltaPlus.Normal()
    ensures numerator.Value() == 2 * old(numerator.Value()) && denominator.Value() == 2 * old(denominator.Value())
    ensures deltaPlus.Value() == 2 * old(deltaPlus.Value()) && deltaMinus.Value() == old(deltaMinus.Value())
  {
    hide Bignum.Value, Bignum.Normal;
    Double(denominator);
    Double(numerator);
    Double(deltaPlus);
  }

  /** Moves the ratio into the range where digit generation starts with a non-zero digit. */
  method FixupMultiply10(estimatedPower: int, isEven: bool, numerator: Bignum, denominator: Bignum,
                         deltaMinus: Bignum, deltaPlus: Bignum) returns (decimalPoint: int)
    requires numerator.Normal() && denominator.Normal() && deltaMinus.Normal() && deltaPlus.Normal()
    requires Separate(numerator, denominator, deltaMinus, deltaPlus) && deltaMinus != deltaPlus
    requires deltaMinus.Value() <= deltaPlus.Value()
    requires denominator.Value() * 10 < Weight(numerator.bigits.Length)
    modifies numerator, numerator.bigits, deltaMinus, deltaMinus.bigits, deltaPlus, deltaPlus.bigits
    ensures numerator.Normal() && deltaMinus.Normal() && deltaPlus.Normal()
    ensures var upper := old(numerator.Value() + deltaPlus.Value());
            var inRange := if isEven then upper >= denominator.Value() else upper > denominator.Value();
            var factor := if inRange then 1 else 10;
            && decimalPoint == (if inRange then estimatedPower + 1 else estimatedPower)
            && numerator.Value() == factor * old(numerator.Value())
            && deltaMinus.Value() == factor * old(deltaMinus.Value())
            && deltaPlus.Value() == factor * old(deltaPlus.Value())
  {
    hide Bignum.Value, Bignum.Valid, Bignum.IsClamped, Weight;
    numerator.Size();
    deltaMinus.Size();
    deltaPlus.Size();
    var compare := Bignum.PlusCompare(numerator, deltaPlus, denominator);
    var inRange := if isEven then compare >= 0 else compare > 0;
    if inRange {
      decimalPoint := estimatedPower + 1;
    } else {
      decimalPoint := estimatedPower;
      numerator.Times10();
      var same := Bignum.Compare(deltaMinus, deltaPlus);
      if same == 0 {
        deltaMinus.Times10();
        Copy(deltaPlus, deltaMinus);
      } else {
        deltaMinus.Times10();
        deltaPlus.Times10();
      }
    }
  }
}
