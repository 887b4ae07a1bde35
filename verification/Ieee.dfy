/** Non-negative IEEE 754 doubles as their 64-bit patterns (ieee.h), and what correct rounding means. */
module Ieee {
  import opened Arithmetic
  import opened Intervals
  import opened Shortest

  const HIDDEN_BIT: int := 0x10_0000_0000_0000
  const DENORMAL_EXPONENT: int := -1074
  const MAX_EXPONENT: int := 972
  const INFINITY: int := 0x7FF0_0000_0000_0000

  /** The patterns from +0 up to and including +infinity, in increasing order of value. */
  type Double = d: int | 0 <= d <= INFINITY

  predicate IsDenormal(d: Double) {
    d < HIDDEN_BIT
  }

  function Significand(d: Double): nat {
    d % HIDDEN_BIT + (if IsDenormal(d) then 0 else HIDDEN_BIT)
  }

  function Exponent(d: Double): int {
    if IsDenormal(d) then DENORMAL_EXPONENT else d / HIDDEN_BIT - 1075
  }

  function NextDouble(d: Double): Double {
    if d == INFINITY then INFINITY else d + 1
  }

  /** How many significant bits a double of the given order of magnitude has. */
  function SignificandSizeForOrderOfMagnitude(order: int): int {
    if order >= DENORMAL_EXPONENT + 53 then 53
    else if order <= DENORMAL_EXPONENT then 0
    else order - DENORMAL_EXPONENT
  }

  predicate LowerBoundaryIsCloser(d: Double) {
    d % HIDDEN_BIT == 0 && Exponent(d) != DENORMAL_EXPONENT
  }

  /** The gap between d and its successor, in units of 2^-1074. */
  ghost function Ulp(d: Double): nat {
    Pow(2, Exponent(d) + 1074)
  }

  /** The value of d in units of 2^-1074; infinity stands for the first power of two that does not fit. */
  ghost function Units(d: Double): nat {
    Significand(d) * Ulp(d)
  }

  /** Successive patterns are successive values. */
  lemma Successor(d: Double)
    requires d < INFINITY
    ensures Units(d + 1) == Units(d) + Ulp(d) && Ulp(d) > 0
    ensures Ulp(d + 1) == Ulp(d) || (Ulp(d + 1) == 2 * Ulp(d) && Significand(d + 1) == HIDDEN_BIT)
  {
    var p, e := Ulp(d), Exponent(d) + 1074;
    if (d + 1) % HIDDEN_BIT == 0 {
      if IsDenormal(d) {
        assert d + 1 == HIDDEN_BIT;
        assert Exponent(d + 1) == Exponent(d);
        Distribute(Significand(d), 1, p);
      } else {
        assert (d + 1) / HIDDEN_BIT == d / HIDDEN_BIT + 1;
        assert Ulp(d + 1) == Pow(2, e + 1) == 2 * p;
        assert Significand(d) == 2 * HIDDEN_BIT - 1;
        Distribute(2 * HIDDEN_BIT - 1, 1, p);
      }
    } else {
      assert (d + 1) / HIDDEN_BIT == d / HIDDEN_BIT && (d + 1) % HIDDEN_BIT == d % HIDDEN_BIT + 1;
      Distribute(Significand(d), 1, p);
    }
  }

  lemma {:induction false} Increasing(d: Double, e: Double)
    requires d <= e
    ensures Units(d) <= Units(e)
    ensures d < e ==> Units(d) < Units(e)
    decreases e - d
  {
    if d < e {
      Successor(d);
      Increasing(d + 1, e);
    }
  }

  /** The boundary between d and its successor, half way, in units of 2^-1075. */
  ghost function Boundary(d: Double): nat
    requires d < INFINITY
  {
    Units(d) + Units(d + 1)
  }

  lemma BoundariesIncrease(d: Double, e: Double)
    requires d <= e < INFINITY
    ensures Boundary(d) <= Boundary(e)
    ensures d < e ==> Boundary(d) < Boundary(e)
  {
    Increasing(d, e);
    Increasing(d + 1, e + 1);
  }

  /** UpperBoundary computes it: (2 f + 1) * 2^(e - 1). */
  lemma UpperBoundary(d: Double)
    requires d < INFINITY
    ensures Boundary(d) == (2 * Significand(d) + 1) * Pow(2, Exponent(d) - 1 + 1075)
  {
    Successor(d);
    Distribute(2 * Significand(d), 1, Ulp(d));
    assert (2 * Significand(d)) * Ulp(d) == 2 * Units(d);
  }

  /** So does the lower boundary of NormalizedBoundaries, a quarter below where the lower neighbour is closer. */
  lemma LowerBoundary(d: Double)
    requires 0 < d < INFINITY
    ensures LowerBoundaryIsCloser(d) ==>
              Boundary(d - 1) == (4 * Significand(d) - 1) * Pow(2, Exponent(d) - 2 + 1075)
    ensures !LowerBoundaryIsCloser(d) ==>
              Boundary(d - 1) == (2 * Significand(d) - 1) * Pow(2, Exponent(d) - 1 + 1075)
  {
    Successor(d - 1);
    var p := Ulp(d - 1);
    if LowerBoundaryIsCloser(d) {
      PredecessorExponent(d);
      assert Ulp(d) == 2 * p;
      TwiceTwice(Significand(d), p);
      Distribute(4 * Significand(d), 1, p);
    } else {
      PredecessorExponent(d);
      assert Ulp(d) == p;
      Distribute(2 * Significand(d), 1, p);
      assert (2 * Significand(d)) * p == 2 * Units(d);
    }
  }

  lemma TwiceTwice(f: int, p: int)
    ensures (4 * f) * p == 2 * (f * (2 * p))
  {
  }

  lemma PredecessorExponent(d: Double)
    requires 0 < d < INFINITY
    ensures Exponent(d - 1) == if LowerBoundaryIsCloser(d) then Exponent(d) - 1 else Exponent(d)
  {
  }

  /** m * 10^p against k * 2^-1075. */
  ghost function Compare(m: nat, p: int, k: nat): int {
    (m * Ten(p)) * Pow(2, 1075) - k * Ten(-p)
  }

  /** d is m * 10^p rounded to nearest, ties to even. */
  ghost predicate RoundsTo(d: Double, m: nat, p: int) {
    && (d < INFINITY ==> Compare(m, p, Boundary(d)) < 0 || (Compare(m, p, Boundary(d)) == 0 && d % 2 == 0))
    && (d > 0 ==> Compare(m, p, Boundary(d - 1)) > 0 || (Compare(m, p, Boundary(d - 1)) == 0 && d % 2 == 0))
  }

  lemma CompareMonotone(m: nat, p: int, k: nat, k': nat)
    requires k <= k'
    ensures Compare(m, p, k) >= Compare(m, p, k')
    ensures k < k' ==> Compare(m, p, k) > Compare(m, p, k')
  {
    hide Pow, Ten;
    MulMonotone(k, k', Ten(-p));
    if k < k' {
      MulStrict(k, k', Ten(-p));
    }
  }

  lemma RoundingIsUnique(d: Double, e: Double, m: nat, p: int)
    requires RoundsTo(d, m, p) && RoundsTo(e, m, p)
    ensures d == e
  {
    if d < e {
      RoundsToSmallest(d, e, m, p);
    } else if e < d {
      RoundsToSmallest(e, d, m, p);
    }
  }

  lemma RoundsToSmallest(d: Double, e: Double, m: nat, p: int)
    requires d < e && RoundsTo(e, m, p)
    ensures !RoundsTo(d, m, p)
  {
    hide Compare, Boundary;
    BoundariesIncrease(d, e - 1);
    CompareMonotone(m, p, Boundary(d), Boundary(e - 1));
  }

  /** Every decimal has a rounding, found by going up from any double that is not too large. */
  lemma {:induction false} RoundingExists(m: nat, p: int, from: Double) returns (d: Double)
    requires from > 0 ==> Compare(m, p, Boundary(from - 1)) > 0 || (Compare(m, p, Boundary(from - 1)) == 0 && from % 2 == 0)
    ensures RoundsTo(d, m, p)
    decreases INFINITY - from
  {
    hide Compare, Boundary;
    if from == INFINITY || Compare(m, p, Boundary(from)) < 0 || (Compare(m, p, Boundary(from)) == 0 && from % 2 == 0) {
      d := from;
    } else {
      d := RoundingExists(m, p, from + 1);
    }
  }

  /** No other double is closer, and an odd one is never chosen over an equally close one. */
  lemma RoundedIsNearest(d: Double, e: Double, m: nat, p: int)
    requires RoundsTo(d, m, p) && d < INFINITY
    ensures Abs(Compare(m, p, 2 * Units(d))) <= Abs(Compare(m, p, 2 * Units(e)))
    ensures d != e && Abs(Compare(m, p, 2 * Units(d))) == Abs(Compare(m, p, 2 * Units(e))) ==> d % 2 == 0
  {
    hide Pow, Ten, Units;
    if d < e {
      Increasing(d + 1, e);
      Increasing(d, d + 1);
      MiddleDecides(m, p, 2 * Units(d), Boundary(d), 2 * Units(d + 1), 2 * Units(e));
    } else if e < d {
      Increasing(e, d - 1);
      Increasing(d - 1, d);
      MiddleDecidesBelow(m, p, 2 * Units(e), 2 * Units(d - 1), Boundary(d - 1), 2 * Units(d));
    }
  }

  lemma MiddleDecides(m: nat, p: int, low: nat, mid: nat, high: nat, far: nat)
    requires low < mid < high <= far && low + high == 2 * mid && Compare(m, p, mid) <= 0
    ensures Abs(Compare(m, p, low)) <= Abs(Compare(m, p, far))
    ensures Compare(m, p, mid) < 0 ==> Abs(Compare(m, p, low)) < Abs(Compare(m, p, far))
  {
    hide Pow, Ten;
    var t := Ten(-p);
    MulMonotone(high, far, t);
    Distribute(low, high, t);
    assert (2 * mid) * t == 2 * (mid * t);
    MulStrict(low, mid, t);
  }

  lemma MiddleDecidesBelow(m: nat, p: int, far: nat, low: nat, mid: nat, high: nat)
    requires far <= low < mid < high && low + high == 2 * mid && Compare(m, p, mid) >= 0
    ensures Abs(Compare(m, p, high)) <= Abs(Compare(m, p, far))
    ensures Compare(m, p, mid) > 0 ==> Abs(Compare(m, p, high)) < Abs(Compare(m, p, far))
  {
    hide Pow, Ten;
    var t := Ten(-p);
    MulMonotone(far, low, t);
    Distribute(low, high, t);
    assert (2 * mid) * t == 2 * (mid * t);
    MulStrict(mid, high, t);
  }

  /** The interval between the two boundaries of d. */
  ghost function IntervalOf(d: Double): Target
    requires 0 < d < INFINITY
  {
    Target(2 * Units(d), Pow(2, 1075), Ulp(d - 1), Ulp(d), d % 2 == 0)
  }

  /** It holds exactly the decimals that round to d. */
  lemma IntervalRounds(d: Double, m: nat, p: int)
    requires 0 < d < INFINITY
    ensures IntervalOf(d).ContainsDecimal(m, p) <==> RoundsTo(d, m, p)
  {
    hide Pow, Ten, Units, Ulp;
    var t := IntervalOf(d);
    Decimal(t, m, p);
    Successor(d);
    Successor(d - 1);
  }
}
