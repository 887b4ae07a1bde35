/** Printing a double with the shortest digits and reading them back. */
module RoundTrips {
  import opened Arithmetic
  import opened Decimals
  import opened DiyFpStrtods
  import opened Dtoa
  import opened Intervals
  import opened Scaling
  import opened Shortest
  import opened Strtods
  import FastDtoas
  import Ieee

  type Double = Ieee.Double

  /** The printer's interval around a double, in its own units, is the one between the double's boundaries. */
  lemma SameInterval(d: Double)
    requires 0 < d < Ieee.INFINITY
    ensures ScaledBy(Ieee.IntervalOf(d),
                     Dtoa.IntervalOf(Ieee.Significand(d), Ieee.Exponent(d), Ieee.LowerBoundaryIsCloser(d)), 0)
  {
    hide Pow, Above, Below, Ieee.Significand, Ieee.Exponent, Ieee.LowerBoundaryIsCloser, Ieee.Ulp;
    var lower := Ieee.LowerBoundaryIsCloser(d);
    var f, e := Ieee.Significand(d), Ieee.Exponent(d);
    SameParity(d);
    Ulps(d);
    SidesPositive(e, 0);
    Positive(1075);
    PowersAgree(e);
    Ratios(f, if lower then 4 else 2, Above(e, 0), Below(e, 0), Pow(2, 1075), Ieee.Ulp(d), Ieee.Ulp(d - 1));
  }

  lemma SameParity(d: Double)
    ensures Ieee.Significand(d) % 2 == d % 2
  {
  }

  lemma Ulps(d: Double)
    requires 0 < d < Ieee.INFINITY
    ensures Ieee.Exponent(d) >= -1074 && Ieee.Ulp(d) == Pow(2, Ieee.Exponent(d) + 1074)
    ensures Ieee.Ulp(d) == if Ieee.LowerBoundaryIsCloser(d) then 2 * Ieee.Ulp(d - 1) else Ieee.Ulp(d - 1)
  {
    Ieee.PredecessorExponent(d);
    if Ieee.LowerBoundaryIsCloser(d) {
      FastDtoas.Doubled(Ieee.Exponent(d) - 1 + 1074);
    }
  }

  lemma Positive(n: nat)
    ensures Pow(2, n) > 0 && Ten(0) == 1 && Ten(-0) == 1
  {
  }

  /** 2^e as a ratio, against the units of doubles. */
  lemma PowersAgree(e: int)
    requires e >= -1074
    ensures Above(e, 0) * Pow(2, 1075) == 2 * (Pow(2, e + 1074) * Below(e, 0))
    ensures e > -1074 ==> Pow(2, e + 1074) == 2 * Pow(2, e - 1 + 1074)
  {
    hide Pow;
    Sides(e, 0);
    var n := 1075;
    One();
    Zero();
    PowAdd(2, e + 1074, 1);
    if e >= 0 {
      PowAdd(2, e, n);
    } else {
      PowAdd(2, e + n, -e);
    }
    if e > -1074 {
      PowAdd(2, e - 1 + 1074, 1);
    }
  }

  lemma Ratios(f: nat, s: nat, a: nat, b: nat, n: nat, ulp: nat, below: nat)
    requires a * n == 2 * (ulp * b) && (if s == 4 then ulp == 2 * below else s == 2 && ulp == below)
    ensures (s * (f * a)) * n == (2 * (f * ulp)) * (s * b)
    ensures a * n == below * (s * b)
    ensures ((s / 2) * a) * n == ulp * (s * b)
  {
    assert (s * (f * a)) * n == (s * f) * (a * n);
    assert (2 * (f * ulp)) * (s * b) == (s * f) * (2 * (ulp * b));
    if s == 4 {
      assert (2 * a) * n == 2 * (a * n) && ulp * (4 * b) == 4 * (ulp * b) && below * (4 * b) == 2 * ((2 * below) * b);
    } else {
      assert ulp * (2 * b) == 2 * (ulp * b) && (1 * a) * n == a * n;
    }
  }

  /** The shortest digits of a double round to it. */
  lemma ShortestReadsBack(d: Double, digits: seq<char>, decimalPoint: int)
    requires 0 < d < Ieee.INFINITY
    requires Promised(SHORTEST, Ieee.Significand(d), Ieee.Exponent(d), Ieee.LowerBoundaryIsCloser(d), 0, digits, decimalPoint)
    ensures Ieee.RoundsTo(d, DecimalValue(digits), decimalPoint - |digits|)
  {
    hide ScaledBy, Ieee.RoundsTo, DecimalValue, Target.ContainsDecimal;
    SameInterval(d);
    var u := Dtoa.IntervalOf(Ieee.Significand(d), Ieee.Exponent(d), Ieee.LowerBoundaryIsCloser(d));
    SameDecimals(Ieee.IntervalOf(d), u, 0, DecimalValue(digits), decimalPoint - |digits|);
    Ieee.IntervalRounds(d, DecimalValue(digits), decimalPoint - |digits|);
  }

  /** And no decimal with fewer digits does: m has at most |digits| - 1 digits, wherever its point is. */
  lemma NothingShorterReadsBack(d: Double, digits: seq<char>, decimalPoint: int, m: nat, p: int)
    requires 0 < d < Ieee.INFINITY
    requires Promised(SHORTEST, Ieee.Significand(d), Ieee.Exponent(d), Ieee.LowerBoundaryIsCloser(d), 0, digits, decimalPoint)
    requires m < Pow(10, |digits| - 1)
    ensures !Ieee.RoundsTo(d, m, p)
  {
    hide ScaledBy, Ieee.RoundsTo, DecimalValue, Target.ContainsDecimal, Pow;
    SameInterval(d);
    var u := Dtoa.IntervalOf(Ieee.Significand(d), Ieee.Exponent(d), Ieee.LowerBoundaryIsCloser(d));
    SameDecimals(Ieee.IntervalOf(d), u, 0, m, p);
    Ieee.IntervalRounds(d, m, p);
  }

  /** Every finite positive double survives being printed with its shortest digits and read again. */
  method PrintAndRead(d: Double, estimatedPower: int, powers: int -> CachedPower) returns (result: Double)
    requires 0 < d < Ieee.INFINITY && GoodEstimate(Ieee.Significand(d), Ieee.Exponent(d), estimatedPower)
    requires Table(powers)
    ensures result == d
  {
    hide Ieee.RoundsTo, DecimalValue, Promised, GoodEstimate, Table;
    var buffer := new char[18](_ => '0');
    var length, decimalPoint := BignumDtoa(Ieee.Significand(d), Ieee.Exponent(d), Ieee.LowerBoundaryIsCloser(d),
                                           SHORTEST, 0, estimatedPower, buffer);
    ShortestReadsBack(d, buffer[..length], decimalPoint);
    PromisedDigits(d, buffer[..length], decimalPoint);
    result := Strtod(buffer[..length], decimalPoint - length, powers);
    Ieee.RoundingIsUnique(d, result, DecimalValue(buffer[..length]), decimalPoint - length);
  }

  lemma PromisedDigits(d: Double, digits: seq<char>, decimalPoint: int)
    requires 0 < d < Ieee.INFINITY
    requires Promised(SHORTEST, Ieee.Significand(d), Ieee.Exponent(d), Ieee.LowerBoundaryIsCloser(d), 0, digits, decimalPoint)
    ensures AllDigits(digits)
  {
  }

  /** There is an estimate for every finite positive double, so the results above are about all of them. */
  lemma EveryDoubleIsEstimated(d: Double) returns (power: int)
    requires 0 < d < Ieee.INFINITY
    ensures GoodEstimate(Ieee.Significand(d), Ieee.Exponent(d), power)
  {
    hide GoodEstimate;
    power := EstimateExists(Ieee.Significand(d), Ieee.Exponent(d));
  }
}
