/** The fast and the exact digit generators agree wherever the fast one does not refuse. */
module Agreements {
  import opened Arithmetic
  import opened Decimals
  import opened DiyFpStrtods
  import opened Dtoa
  import opened Grisus
  import opened Intervals
  import opened RoundTrips
  import opened Scaling
  import opened Shortest
  import CountedDigits
  import Cutting
  import Ieee

  /** What is shortest in an interval is so in every interval with the same numbers. */
  lemma SameShortest(t: Target, u: Target, n: nat, length: nat, point: int)
    requires ScaledBy(t, u, 0) && ShortestDecimal(u, n, length, point)
    ensures ShortestDecimal(t, n, length, point)
  {
    hide ScaledBy, Pow, Off, Target.ContainsDecimal;
    var last := point - length;
    SameDecimals(t, u, 0, n, last);
    forall m: nat, p: int | m < Pow(10, length - 1)
      ensures !t.ContainsDecimal(m, p)
    {
      SameDecimals(t, u, 0, m, p);
    }
    forall m: nat | t.ContainsDecimal(m, last)
      ensures AtLeastAsClose(t, n, m, last)
    {
      SameDecimals(t, u, 0, m, last);
      SameOrder(t, u, 0, n, m, last);
      assert AtLeastAsClose(u, n, m, last);
    }
  }

  lemma SameUpperPlace(t: Target, u: Target, point: int)
    requires ScaledBy(t, u, 0) && UpperPlace(u, point)
    ensures UpperPlace(t, point)
  {
    hide SameRatio, Ten;
    SumRatio(u.num, u.den, u.plus, t.num, t.den, t.plus, 0);
    SameOffset(u.num + u.plus, u.den, t.num + t.plus, t.den, 0, 1, point - 1);
    SameOffset(u.num + u.plus, u.den, t.num + t.plus, t.den, 0, 1, point);
    SignOfProduct(UpperOff(u, 1, point - 1), t.den * Ten(point - 1), UpperOff(t, 1, point - 1), Ten(point - 1) * u.den);
    SignOfProduct(UpperOff(u, 1, point), t.den * Ten(point), UpperOff(t, 1, point), Ten(point) * u.den);
  }

  /** Powers of ten grow past the upper boundary once. */
  lemma PointIsUnique(d: Double, point: int, other: int)
    requires 0 < d < Ieee.INFINITY && UpperPlace(Ieee.IntervalOf(d), point)
    requires UpperOff(Ieee.IntervalOf(d), 1, other - 1) < 0 < UpperOff(Ieee.IntervalOf(d), 1, other)
    ensures point == other
  {
    hide UpperOff, Ieee.Compare, Ieee.Boundary, Ieee.Units, Ieee.Ulp;
    BetweenBoundaries(d, 1, point - 1);
    BetweenBoundaries(d, 1, point);
    BetweenBoundaries(d, 1, other - 1);
    BetweenBoundaries(d, 1, other);
    if point < other {
      PowersGrow(point, other - 1, Ieee.Boundary(d));
    } else if other < point {
      PowersGrow(other, point - 1, Ieee.Boundary(d));
    }
  }

  lemma PowersGrow(p: int, q: int, k: nat)
    requires p <= q
    ensures Ieee.Compare(1, p, k) > 0 ==> Ieee.Compare(1, q, k) > 0
    ensures Ieee.Compare(1, p, k) >= 0 ==> Ieee.Compare(1, q, k) >= 0
  {
    hide Ieee.Compare, Pow;
    Cutting.ShiftDecimal(1, q - p, p, k);
    Zero();
    PowMonotone(10, 0, q - p);
    if 1 < Pow(10, q - p) {
      Cutting.CompareGrows(1, Pow(10, q - p), p, k);
    }
  }

  /** Two shortest decimals of one double have the same number of digits. */
  lemma LengthIsUnique(t: Target, n: nat, length: nat, point: int, n': nat, length': nat, point': int)
    requires ShortestDecimal(t, n, length, point) && ShortestDecimal(t, n', length', point')
    requires n < Pow(10, length) && n' < Pow(10, length')
    ensures length == length'
  {
    hide Pow, Target.ContainsDecimal, IsClosest;
    if length < length' {
      PowMonotone(10, length, length' - 1);
    } else if length' < length {
      PowMonotone(10, length', length - 1);
    }
  }

  /** Where the fast generator accepts, it has the very digits and point of the exact one. */
  lemma FastIsExact(d: Double, digits: seq<char>, decimalPoint: int, fast: seq<char>, p: int)
    requires 0 < d < Ieee.INFINITY && AllDigits(fast)
    requires Promised(SHORTEST, Ieee.Significand(d), Ieee.Exponent(d), Ieee.LowerBoundaryIsCloser(d), 0, digits, decimalPoint)
    requires FastShortest(d, DecimalValue(fast), |fast|, p)
    ensures fast == digits && decimalPoint == p + |fast|
  {
    hide ScaledBy, Pow, Off, UpperOff, UpperPlace, ShortestDecimal, StrictlyClosest, DecimalValue, Dtoa.IntervalOf, Ieee.IntervalOf;
    var t := Ieee.IntervalOf(d);
    var u := Dtoa.IntervalOf(Ieee.Significand(d), Ieee.Exponent(d), Ieee.LowerBoundaryIsCloser(d));
    SameInterval(d);
    var n, m := DecimalValue(digits), DecimalValue(fast);
    SameShortest(t, u, n, |digits|, decimalPoint);
    SameUpperPlace(t, u, decimalPoint);
    DecimalBound(digits);
    DecimalBound(fast);
    LengthIsUnique(t, n, |digits|, decimalPoint, m, |fast|, p + |fast|);
    PointIsUnique(d, decimalPoint, p + |fast|);
    ClosestIsUnique(t, n, m, |fast|, p);
    SameValueSameDigits(digits, fast);
  }

  lemma ClosestIsUnique(t: Target, n: nat, m: nat, length: nat, p: int)
    requires ShortestDecimal(t, n, length, p + length) && ShortestDecimal(t, m, length, p + length) && StrictlyClosest(t, m, p)
    ensures n == m
  {
    hide Pow, Off, Target.ContainsDecimal;
    assert t.ContainsDecimal(n, p) && t.ContainsDecimal(m, p);
    assert AtLeastAsClose(t, n, m, p);
  }

  /** Printing with the fast generator, falling back on the exact one: always the shortest digits. */
  method DoubleToShortest(d: Double, estimatedPower: int, powers: int -> CachedPower, buffer: array<char>)
      returns (length: nat, decimalPoint: int)
    requires 0 < d < Ieee.INFINITY && buffer.Length >= 18
    requires GoodEstimate(Ieee.Significand(d), Ieee.Exponent(d), estimatedPower)
    requires forall e: int :: -1140 <= e <= 1000 ==> PowerFor(powers(e), e)
    modifies buffer
    ensures 0 < length <= 17 && AllDigits(buffer[..length]) && DecimalValue(buffer[..length]) >= Pow(10, length - 1)
    ensures ShortestDecimal(Ieee.IntervalOf(d), DecimalValue(buffer[..length]), length, decimalPoint)
    ensures Ieee.RoundsTo(d, DecimalValue(buffer[..length]), decimalPoint - length)
  {
    hide Pow, PowerFor, GoodEstimate, DecimalValue, ScaledBy, ShortestDecimal, UpperPlace, Ieee.RoundsTo, Ieee.IntervalOf, Dtoa.IntervalOf;
    var ok, fastLength, decimalExponent := Grisu3(d, powers, buffer);
    if ok {
      length, decimalPoint := fastLength, fastLength + decimalExponent;
      ghost var digits := buffer[..length];
      buffer[length] := 0 as char;
      assert buffer[..length] == digits;
      ContainsRounds(d, DecimalValue(digits), length, decimalPoint);
    } else {
      length, decimalPoint := BignumDtoa(Ieee.Significand(d), Ieee.Exponent(d), Ieee.LowerBoundaryIsCloser(d),
                                         SHORTEST, 0, estimatedPower, buffer);
      var digits := buffer[..length];
      SameInterval(d);
      SameShortest(Ieee.IntervalOf(d), Dtoa.IntervalOf(Ieee.Significand(d), Ieee.Exponent(d), Ieee.LowerBoundaryIsCloser(d)),
                   DecimalValue(digits), length, decimalPoint);
      ContainsRounds(d, DecimalValue(digits), length, decimalPoint);
      LeadingNonZero(digits);
    }
  }

  lemma ContainsRounds(d: Double, n: nat, length: nat, point: int)
    requires 0 < d < Ieee.INFINITY && ShortestDecimal(Ieee.IntervalOf(d), n, length, point)
    ensures Ieee.RoundsTo(d, n, point - length)
  {
    hide Pow, Ieee.RoundsTo, Target.ContainsDecimal;
    Ieee.IntervalRounds(d, n, point - length);
  }
}
