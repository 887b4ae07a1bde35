/** BignumDtoa: from a significand and an exponent to decimal digits (bignum-dtoa.cc). */
module Dtoa {
  import opened Arithmetic
  import opened Bigits
  import opened Bignums
  import opened ShortestDigits
  import opened CountedDigits
  import opened Decimals
  import opened Intervals
  import opened Scaling
  import opened Shortest

  datatype Mode = SHORTEST | FIXED | PRECISION

  /** The numbers that round to significand * 2^exponent: half a unit in the last place around it, a
      quarter below when the lower neighbour is closer. */
  ghost function IntervalOf(significand: nat, exponent: int, lowerBoundaryIsCloser: bool): Target {
    var s := if lowerBoundaryIsCloser then 4 else 2;
    Target(s * (significand * Above(exponent, 0)), s * Below(exponent, 0), Above(exponent, 0),
           (s / 2) * Above(exponent, 0), significand % 2 == 0)
  }

  /** What EstimatePower promises: 10^(estimatedPower - 1) <= v, and the upper boundary of v is
      below 10^(estimatedPower + 1). */
  ghost predicate GoodEstimate(significand: nat, exponent: int, estimatedPower: int) {
    && InRange(significand, exponent, estimatedPower) && (exponent >= 0 ==> estimatedPower >= 0)
    && Below(exponent, estimatedPower) <= 10 * (significand * Above(exponent, estimatedPower))
    && (2 * significand + 1) * Above(exponent, estimatedPower) < 20 * Below(exponent, estimatedPower)
  }

  /** The form of a double's significand and exponent. */
  predicate DoubleShape(significand: nat, exponent: int) {
    0 < significand < 0x20_0000_0000_0000 && -1074 <= exponent <= 971
    && (significand >= 0x10_0000_0000_0000 || exponent == -1074)
  }

  lemma SidesPositive(exponent: int, estimatedPower: int)
    ensures Above(exponent, estimatedPower) > 0 && Below(exponent, estimatedPower) > 0
  {
    MulStrict(0, Pow(2, Max(exponent, 0)), Pow(10, Max(-estimatedPower, 0)));
    MulStrict(0, Pow(2, Max(-exponent, 0)), Pow(10, Max(estimatedPower, 0)));
  }

  /** Above / Below at a power is that at power zero, divided by ten to that power. */
  lemma ScaledSides(exponent: int, estimatedPower: int)
    ensures SameRatio(Above(exponent, estimatedPower), Below(exponent, estimatedPower),
                      Above(exponent, 0), Below(exponent, 0), estimatedPower)
  {
    hide Pow;
    Zero();
    var a, b, x, y := Pow(2, Max(exponent, 0)), Pow(2, Max(-exponent, 0)), Ten(estimatedPower), Ten(-estimatedPower);
    assert Above(exponent, 0) == a && Below(exponent, 0) == b;
    assert Above(exponent, estimatedPower) == a * y && Below(exponent, estimatedPower) == x * b;
    assert ((a * y) * b) * x == (a * (x * b)) * y;
  }

  lemma ScaleRatio(a: int, b: int, c: int, d: int, q: int, k: int, s: int)
    requires SameRatio(a, b, c, d, q)
    ensures SameRatio(k * a, s * b, k * c, s * d, q)
  {
    hide Ten;
    assert (k * a) * (s * d) == (k * s) * (a * d);
    assert (k * c) * (s * b) == (k * s) * (c * b);
    assert ((k * s) * (a * d)) * Ten(q) == (k * s) * ((a * d) * Ten(q));
    assert ((k * s) * (c * b)) * Ten(-q) == (k * s) * ((c * b) * Ten(-q));
  }

  lemma TenfoldRatio(a: int, b: int, c: int, d: int, q: int)
    requires SameRatio(a, b, c, d, q)
    ensures SameRatio(10 * a, b, c, d, q - 1)
  {
    assert (10 * a) * d == 10 * (a * d);
    if q > 0 {
      assert Ten(q) == 10 * Ten(q - 1);
    } else {
      assert Ten(1 - q) == 10 * Ten(-q);
      assert (c * b) * (10 * Ten(-q)) == 10 * ((c * b) * Ten(-q));
    }
  }

  /** The initial values are the interval, scaled by the estimated power. */
  lemma InitialIsScaled(significand: nat, exponent: int, lower: bool, power: int)
    ensures var s := if lower then 4 else 2;
            var above, below := Above(exponent, power), Below(exponent, power);
            ScaledBy(IntervalOf(significand, exponent, lower),
                     Target(s * (significand * above), s * below, above, (s / 2) * above, significand % 2 == 0), power)
  {
    hide Above, Below, SameRatio;
    var s: nat := if lower then 4 else 2;
    var a, b := Above(exponent, power), Below(exponent, power);
    SidesPositive(exponent, power);
    SidesPositive(exponent, 0);
    ScaledSides(exponent, power);
    ScaleRatio(a, b, Above(exponent, 0), Below(exponent, 0), power, significand, 1);
    ScaleRatio(significand * a, b, significand * Above(exponent, 0), Below(exponent, 0), power, s, s);
    ScaleRatio(a, b, Above(exponent, 0), Below(exponent, 0), power, 1, s);
    ScaleRatio(a, b, Above(exponent, 0), Below(exponent, 0), power, s / 2, s);
  }

  ghost function Tenfold(t: Target, inRange: bool): Target {
    if inRange then t else t.(num := 10 * t.num, minus := 10 * t.minus, plus := 10 * t.plus)
  }

  lemma TenfoldIsScaled(t: Target, u: Target, power: int, inRange: bool)
    requires ScaledBy(t, u, power)
    ensures ScaledBy(t, Tenfold(u, inRange), if inRange then power else power - 1)
  {
    hide SameRatio;
    TenfoldRatio(u.num, u.den, t.num, t.den, power);
    TenfoldRatio(u.minus, u.den, t.minus, t.den, power);
    TenfoldRatio(u.plus, u.den, t.plus, t.den, power);
  }

  /** With a good estimate the fixed-up ratio is where digit generation wants it, and 17 digits do. */
  lemma ReadyToGenerate(significand: nat, s: nat, above: nat, below: nat, u: Target)
    requires 0 < significand < 0x20_0000_0000_0000 && above > 0 && below > 0
    requires s == 2 || (s == 4 && significand <= 0x10_0000_0000_0000)
    requires below <= 10 * (significand * above) && (2 * significand + 1) * above < 20 * below
    requires u == Target(s * (significand * above), s * below, above, (s / 2) * above, u.closed)
    ensures Tenfold(u, UpperInRange(u)).Normalized()
    ensures var t := Tenfold(u, UpperInRange(u)); (t.minus + t.plus) * Pow(10, 16) > t.den
  {
    hide Pow;
    var x := significand * above;
    assert (2 * significand + 1) * above == 2 * x + above;
    MulMonotone(1, significand, above);
    MulMonotone(significand, 0x1F_FFFF_FFFF_FFFF, above);
    MulMonotone(significand, if s == 4 then 0x10_0000_0000_0000 else 0x1F_FFFF_FFFF_FFFF, above);
    TenTo16();
    if s == 2 {
      Enough(x, 2, above, below, u);
    } else {
      Enough(x, 4, above, below, u);
    }
  }

  predicate UpperInRange(u: Target) {
    if u.closed then u.num + u.plus >= u.den else u.num + u.plus > u.den
  }

  lemma Enough(x: nat, s: nat, above: nat, below: nat, u: Target)
    requires s == 2 || s == 4
    requires above > 0 && below > 0 && x >= above && below <= 10 * x && 2 * x + above < 20 * below
    requires x <= (if s == 4 then 0x10_0000_0000_0000 else 0x1F_FFFF_FFFF_FFFF) * above
    requires u.num == s * x && u.den == s * below && u.minus == above && u.plus == (s / 2) * above
    ensures Tenfold(u, UpperInRange(u)).Normalized()
    ensures var t := Tenfold(u, UpperInRange(u)); (t.minus + t.plus) * 1_0000_0000_0000_0000 > t.den
  {
    if s == 2 {
      assert u.num == 2 * x && u.den == 2 * below && u.plus == above;
    } else {
      assert u.num == 4 * x && u.den == 4 * below && u.plus == 2 * above;
    }
  }

  lemma DenominatorFits(exponent: int, estimatedPower: int, s: nat, limit: nat)
    requires InRange(1, exponent, estimatedPower) && s <= 4 && limit >= 100
    ensures (s * Below(exponent, estimatedPower)) * 10 < Weight(limit)
  {
    hide Pow, Weight;
    var k, m := Max(estimatedPower, 0), Max(-exponent, 0);
    TenBelowWeight(k, m + 6, 100);
    WeightMonotone(100, limit);
    PowAdd(2, m, 6);
    SixBits();
    assert Pow(10, k) * (Pow(2, m) * 64) == (Pow(10, k) * Pow(2, m)) * 64;
    MulMonotone(s, 4, Below(exponent, estimatedPower));
  }

  lemma SixBits()
    ensures Pow(2, 6) == 64
  {
  }

  /** Rounding half up at a scaled place. */
  lemma RoundedAtScale(n: int, a: nat, b: nat, c: nat, d: nat, q: int, e: int)
    requires b > 0 && d > 0 && SameRatio(a, b, c, d, q) && RoundedAt(n, a, b, e)
    ensures RoundedAt(n, c, d, e - q)
  {
    hide Ten, RoundsHalfUp;
    RoundedIsRatio(n, a, b, e);
    RoundedIsRatio(n, c, d, e - q);
    TenTimesTen(-e, q);
    CrossTerm(a, b, c, d, Ten(q), Ten(-q), Ten(-e), Ten(e), Ten(q - e), Ten(e - q));
    MulStrict(0, b, Ten(-e));
    MulStrict(0, d, Ten(q - e));
    EqualRatio(n, a * Ten(e), b * Ten(-e), c * Ten(e - q), d * Ten(q - e));
  }

  lemma RoundedIsRatio(n: int, a: nat, b: nat, e: int)
    ensures RoundedAt(n, a, b, e) <==> RoundsHalfUp(n, a * Ten(e), b * Ten(-e))
  {
    Zero();
  }

  lemma EqualRatio(n: int, x: nat, y: nat, x': nat, y': nat)
    requires y > 0 && y' > 0 && x * y' == x' * y && RoundsHalfUp(n, x, y)
    ensures RoundsHalfUp(n, x', y')
  {
    Halves(n, x, y, y');
    Halves(n, x', y', y);
    assert (n * y) * y' == (n * y') * y;
    assert y * y' == y' * y;
    MulMonotone(2 * (n * y), 2 * x + y, y');
    MulStrict(2 * x + y, 2 * (n * y) + 2 * y, y');
    CancelHalves(2 * (n * y'), 2 * x' + y', 2 * (n * y') + 2 * y', y);
  }

  lemma CancelHalves(a: int, b: int, c: int, y: int)
    requires y > 0 && a * y <= b * y < c * y
    ensures a <= b < c
  {
    MulCancel(a, b, y);
    MulCancel(b, c, y);
  }

  lemma Halves(n: int, x: int, y: int, z: int)
    ensures (2 * (n * y)) * z == 2 * ((n * y) * z)
    ensures (2 * x + y) * z == 2 * (x * z) + y * z
    ensures (2 * (n * y) + 2 * y) * z == 2 * ((n * y) * z) + 2 * (y * z)
  {
  }

  /** An odd significand of a double never makes an exact power of ten. */
  lemma OddIsNoPowerOfTen(significand: nat, exponent: int, power: int)
    requires DoubleShape(significand, exponent) && significand % 2 == 1
    requires exponent >= 0 ==> power >= 0
    ensures significand * Above(exponent, power) != Below(exponent, power)
  {
    hide Pow, Above, Below;
    Sides(exponent, power);
    if exponent >= 0 {
      FivePowersSkip(significand, exponent, power);
    } else if power >= 0 {
      PowStep(2, -exponent);
      TakeOut(Pow(10, power), 2, Pow(2, -exponent - 1));
      Residue(significand, 2, Pow(10, power) * Pow(2, -exponent - 1));
    } else {
      NoFactorFive(-exponent);
      PowStep(10, -power);
      TakeOut(significand, 10, Pow(10, -power - 1));
      Residue(Pow(2, -exponent), 5, 2 * (significand * Pow(10, -power - 1)));
    }
  }

  lemma PowStep(b: nat, n: nat)
    requires n > 0
    ensures Pow(b, n) == b * Pow(b, n - 1)
  {
  }

  lemma Residue(x: nat, k: nat, z: nat)
    requires k == 2 || k == 5
    requires x % k != 0
    ensures x != k * z
  {
  }

  lemma TakeOut(x: int, k: int, y: int)
    ensures x * (k * y) == k * (x * y)
  {
  }

  lemma {:induction false} NoFactorFive(k: nat)
    ensures Pow(2, k) % 5 != 0
  {
    if k > 0 {
      NoFactorFive(k - 1);
    }
  }

  lemma {:induction false} OddPowerOfFive(k: nat)
    ensures Pow(5, k) % 2 == 1
  {
    if k > 0 {
      OddPowerOfFive(k - 1);
    }
  }

  /** No power of five has exactly 53 bits. */
  lemma FivePowersSkip(f: nat, e: nat, k: nat)
    requires 0x10_0000_0000_0000 <= f < 0x20_0000_0000_0000 && f % 2 == 1
    ensures f * Pow(2, e) != Pow(10, k)
  {
    hide Pow;
    PowProduct(2, 5, k);
    OddPowerOfFive(k);
    if e == k {
      MulCancel(f, Pow(5, k), Pow(2, k));
      FiveGap(k);
    } else if e < k {
      EvenMultiple(f, Pow(5, k), e, k);
    } else {
      EvenMultiple(Pow(5, k), f, k, e);
    }
  }

  lemma EvenMultiple(x: nat, y: nat, e: nat, k: nat)
    requires e < k && x % 2 == 1
    ensures x * Pow(2, e) != Pow(2, k) * y
  {
    hide Pow;
    PowAdd(2, e, k - e);
    PowStep(2, k - e);
    var z := Pow(2, k - e - 1) * y;
    FactorOut(Pow(2, e), Pow(2, k - e - 1), y);
    MulCancel(x, 2 * z, Pow(2, e));
  }

  lemma FactorOut(p: int, r: int, y: int)
    ensures (p * (2 * r)) * y == (2 * (r * y)) * p
  {
  }

  lemma FiveGap(k: nat)
    ensures k <= 22 ==> Pow(5, k) < 0x10_0000_0000_0000
    ensures k > 22 ==> Pow(5, k) > 0x20_0000_0000_0000
  {
    PowAdd(5, 11, 11);
    PowAdd(5, 6, 5);
    PowAdd(5, 22, 1);
    if k <= 22 {
      PowMonotone(5, k, 22);
    } else {
      PowMonotone(5, 23, k);
    }
  }

  /** What each mode promises about the digits written and the decimal point, v being
      significand * 2^exponent. With a requested number of digits, rounding may carry out of the top place: then
      the digits are a one and zeros, and the last of them stands one place higher. */
  ghost predicate Promised(mode: Mode, significand: nat, exponent: int, lowerBoundaryIsCloser: bool,
                           requestedDigits: nat, digits: seq<char>, decimalPoint: int) {
    var num, den := significand * Above(exponent, 0), Below(exponent, 0);
    AllDigits(digits) &&
    match mode
    case SHORTEST =>
      && 0 < |digits| <= 17 && digits[0] != '0'
      && ShortestDecimal(IntervalOf(significand, exponent, lowerBoundaryIsCloser),
                         DecimalValue(digits), |digits|, decimalPoint)
      && UpperPlace(IntervalOf(significand, exponent, lowerBoundaryIsCloser), decimalPoint)
    case FIXED =>
      && decimalPoint + requestedDigits >= |digits|
      && RoundedAt(DecimalValue(digits) * Pow(10, decimalPoint + requestedDigits - |digits|), num, den, requestedDigits)
    case PRECISION =>
      && |digits| == requestedDigits > 0 && digits[0] != '0'
      && (RoundedAt(DecimalValue(digits), num, den, requestedDigits - decimalPoint)
          || (DecimalValue(digits) == Pow(10, requestedDigits - 1)
              && RoundedAt(DecimalValue(digits) * 10, num, den, requestedDigits - decimalPoint + 1)))
  }

  /** What digit generation starts from: v / 10^(decimalPoint - 1), with its interval where that is needed. */
  ghost predicate Prepared(significand: nat, exponent: int, lowerBoundaryIsCloser: bool, needBoundaryDeltas: bool,
                           decimalPoint: int, num: nat, den: nat, minus: nat, plus: nat) {
    if needBoundaryDeltas then
      var t := Target(num, den, minus, plus, significand % 2 == 0);
      && t.Normalized() && (minus + plus) * Pow(10, 16) > den
      && ScaledBy(IntervalOf(significand, exponent, lowerBoundaryIsCloser), t, decimalPoint - 1)
    else
      && 0 < den <= num < 10 * den
      && SameRatio(num, den, significand * Above(exponent, 0), Below(exponent, 0), decimalPoint - 1)
  }

  /** The ratio after InitialScaledStartValues and FixupMultiply10, and what is known about it. */
  method Prepare(significand: nat, exponent: int, lowerBoundaryIsCloser: bool, needBoundaryDeltas: bool,
                 estimatedPower: int, numerator: Bignum, denominator: Bignum, deltaMinus: Bignum, deltaPlus: Bignum)
      returns (decimalPoint: int)
    requires GoodEstimate(significand, exponent, estimatedPower)
    requires significand < 0x20_0000_0000_0000 && (lowerBoundaryIsCloser ==> significand <= 0x10_0000_0000_0000)
    requires !needBoundaryDeltas ==> DoubleShape(significand, exponent)
    requires numerator.Normal() && denominator.Normal() && deltaMinus.Normal() && deltaPlus.Normal()
    requires Separate(numerator, denominator, deltaMinus, deltaPlus) && deltaMinus != deltaPlus
    requires deltaMinus.Value() == deltaPlus.Value() == 0
    modifies numerator, numerator.bigits, denominator, denominator.bigits
    modifies deltaMinus, deltaMinus.bigits, deltaPlus, deltaPlus.bigits
    ensures numerator.Normal() && denominator.Normal() && deltaMinus.Normal() && deltaPlus.Normal()
    ensures denominator.Value() * 10 < Weight(numerator.bigits.Length)
    ensures estimatedPower <= decimalPoint <= estimatedPower + 1
    ensures Prepared(significand, exponent, lowerBoundaryIsCloser, needBoundaryDeltas, decimalPoint,
                     numerator.Value(), denominator.Value(), deltaMinus.Value(), deltaPlus.Value())
  {
    hide Bignum.Value, Bignum.Valid, Bignum.IsClamped, Pow, Weight, Above, Below, Prepared;
    numerator.Size();
    InitialScaledStartValues(significand, exponent, lowerBoundaryIsCloser, estimatedPower, needBoundaryDeltas,
                             numerator, denominator, deltaMinus, deltaPlus);
    ghost var u := Target(numerator.Value(), denominator.Value(), deltaMinus.Value(), deltaPlus.Value(), significand % 2 == 0);
    DenominatorFits(exponent, estimatedPower, Enlarged(needBoundaryDeltas, lowerBoundaryIsCloser), numerator.bigits.Length);
    DeltasInOrder(u, Enlarged(needBoundaryDeltas, lowerBoundaryIsCloser));
    decimalPoint := FixupMultiply10(estimatedPower, significand % 2 == 0, numerator, denominator, deltaMinus, deltaPlus);
    MakePrepared(significand, exponent, lowerBoundaryIsCloser, needBoundaryDeltas, estimatedPower, u, decimalPoint,
                 numerator.Value(), deltaMinus.Value(), deltaPlus.Value());
  }

  lemma MakePrepared(significand: nat, exponent: int, lowerBoundaryIsCloser: bool, needBoundaryDeltas: bool,
                     estimatedPower: int, u: Target, decimalPoint: int, num: nat, minus: nat, plus: nat)
    requires GoodEstimate(significand, exponent, estimatedPower)
    requires significand < 0x20_0000_0000_0000 && (lowerBoundaryIsCloser ==> significand <= 0x10_0000_0000_0000)
    requires !needBoundaryDeltas ==> DoubleShape(significand, exponent)
    requires var s := Enlarged(needBoundaryDeltas, lowerBoundaryIsCloser);
             var above, below := Above(exponent, estimatedPower), Below(exponent, estimatedPower);
             && u.num == s * (significand * above) && u.den == s * below && u.closed == (significand % 2 == 0)
             && (if needBoundaryDeltas then u.minus == above && u.plus == (s / 2) * above else u.minus == u.plus == 0)
    requires var factor := if UpperInRange(u) then 1 else 10;
             && decimalPoint == (if UpperInRange(u) then estimatedPower + 1 else estimatedPower)
             && num == factor * u.num && minus == factor * u.minus && plus == factor * u.plus
    ensures Prepared(significand, exponent, lowerBoundaryIsCloser, needBoundaryDeltas, decimalPoint, num, u.den, minus, plus)
  {
    hide Pow, Above, Below, ScaledBy, SameRatio, Target.Normalized;
    if needBoundaryDeltas {
      IntervalReady(significand, exponent, lowerBoundaryIsCloser, estimatedPower, u);
    } else {
      RatioReady(significand, exponent, estimatedPower, u, decimalPoint, num);
    }
  }

  lemma DeltasInOrder(u: Target, s: nat)
    requires u.plus == u.minus || (s >= 2 && u.plus == (s / 2) * u.minus)
    ensures u.minus <= u.plus
  {
    if s >= 2 {
      MulMonotone(1, s / 2, u.minus);
    }
  }

  lemma IntervalReady(significand: nat, exponent: int, lowerBoundaryIsCloser: bool, estimatedPower: int, u: Target)
    requires GoodEstimate(significand, exponent, estimatedPower)
    requires significand < 0x20_0000_0000_0000 && (lowerBoundaryIsCloser ==> significand <= 0x10_0000_0000_0000)
    requires var s := Enlarged(true, lowerBoundaryIsCloser);
             var above, below := Above(exponent, estimatedPower), Below(exponent, estimatedPower);
             u == Target(s * (significand * above), s * below, above, (s / 2) * above, significand % 2 == 0)
    ensures var t := Tenfold(u, UpperInRange(u));
            && t.Normalized() && (t.minus + t.plus) * Pow(10, 16) > t.den
            && ScaledBy(IntervalOf(significand, exponent, lowerBoundaryIsCloser), t,
                        if UpperInRange(u) then estimatedPower else estimatedPower - 1)
  {
    hide Pow, Above, Below, ScaledBy, Target.Normalized;
    SidesPositive(exponent, estimatedPower);
    InitialIsScaled(significand, exponent, lowerBoundaryIsCloser, estimatedPower);
    ReadyToGenerate(significand, Enlarged(true, lowerBoundaryIsCloser),
                    Above(exponent, estimatedPower), Below(exponent, estimatedPower), u);
    TenfoldIsScaled(IntervalOf(significand, exponent, lowerBoundaryIsCloser), u, estimatedPower, UpperInRange(u));
  }

  lemma RatioReady(significand: nat, exponent: int, estimatedPower: int, u: Target, decimalPoint: int, num: nat)
    requires GoodEstimate(significand, exponent, estimatedPower) && DoubleShape(significand, exponent)
    requires u.num == significand * Above(exponent, estimatedPower) && u.den == Below(exponent, estimatedPower)
    requires u.plus == 0 && u.closed == (significand % 2 == 0)
    requires decimalPoint == if UpperInRange(u) then estimatedPower + 1 else estimatedPower
    requires num == (if UpperInRange(u) then 1 else 10) * u.num
    ensures 0 < u.den <= num < 10 * u.den
    ensures SameRatio(num, u.den, significand * Above(exponent, 0), Below(exponent, 0), decimalPoint - 1)
  {
    hide Pow, Above, Below, SameRatio;
    var above, below := Above(exponent, estimatedPower), Below(exponent, estimatedPower);
    assert (2 * significand + 1) * above == 2 * (significand * above) + above;
    SidesPositive(exponent, estimatedPower);
    if !u.closed {
      OddIsNoPowerOfTen(significand, exponent, estimatedPower);
    }
    ScaledSides(exponent, estimatedPower);
    ScaleRatio(above, below, Above(exponent, 0), Below(exponent, 0), estimatedPower, significand, 1);
    TenfoldRatio(u.num, u.den, significand * Above(exponent, 0), Below(exponent, 0), estimatedPower);
  }

  /** The case of BIGNUM_DTOA_SHORTEST. */
  method Generate(significand: nat, exponent: int, lowerBoundaryIsCloser: bool, decimalPoint: int,
                  numerator: Bignum, denominator: Bignum, deltaMinus: Bignum, deltaPlus: Bignum, buffer: array<char>)
      returns (length: nat)
    requires numerator.Normal() && denominator.Normal() && deltaMinus.Normal() && deltaPlus.Normal()
    requires Separate(numerator, denominator, deltaMinus, deltaPlus) && deltaMinus != deltaPlus
    requires denominator.Value() * 10 < Weight(numerator.bigits.Length) && buffer.Length >= 17
    requires var t := Target(numerator.Value(), denominator.Value(), deltaMinus.Value(), deltaPlus.Value(), significand % 2 == 0);
             && t.Normalized() && (t.minus + t.plus) * Pow(10, 16) > t.den
             && ScaledBy(IntervalOf(significand, exponent, lowerBoundaryIsCloser), t, decimalPoint - 1)
    modifies numerator, numerator.bigits, deltaMinus, deltaMinus.bigits, deltaPlus, deltaPlus.bigits, buffer
    ensures length <= buffer.Length && length <= 17
    ensures Promised(SHORTEST, significand, exponent, lowerBoundaryIsCloser, 0, buffer[..length], decimalPoint)
  {
    hide Bignum.Value, Bignum.Valid, Bignum.IsClamped, Pow, Weight, ScaledBy, Target.Normalized, Target.IsShortest;
    hide ShortestDecimal, AllDigits, DecimalValue, IntervalOf;
    ghost var t := Target(numerator.Value(), denominator.Value(), deltaMinus.Value(), deltaPlus.Value(), significand % 2 == 0);
    LongerBuffer(t, buffer.Length);
    length := GenerateShortestDigits(numerator, denominator, deltaMinus, deltaPlus, significand % 2 == 0, buffer, t);
    ShortestAtScale(IntervalOf(significand, exponent, lowerBoundaryIsCloser), t, decimalPoint - 1,
                    DecimalValue(buffer[..length]), length);
    UpperPlaceAtScale(IntervalOf(significand, exponent, lowerBoundaryIsCloser), t, decimalPoint - 1);
    AtMost17(t, length);
  }

  /** The case of BIGNUM_DTOA_FIXED. */
  method Fix(significand: nat, exponent: int, requestedDigits: nat, before: int,
             numerator: Bignum, denominator: Bignum, buffer: array<char>) returns (length: nat, decimalPoint: int)
    requires numerator.Normal() && denominator.Normal() && numerator.bigits != denominator.bigits
    requires 0 < denominator.Value() && numerator.Value() < 10 * denominator.Value()
    requires denominator.Value() * 10 < Weight(numerator.bigits.Length)
    requires SameRatio(numerator.Value(), denominator.Value(),
                       significand * Above(exponent, 0), Below(exponent, 0), before - 1)
    requires 0 < buffer.Length && before + requestedDigits <= buffer.Length
    modifies numerator, numerator.bigits, denominator, denominator.bigits, buffer
    ensures length <= buffer.Length && length <= Max(1, before + requestedDigits)
    ensures Promised(FIXED, significand, exponent, false, requestedDigits, buffer[..length], decimalPoint)
  {
    hide Bignum.Value, Bignum.Valid, Bignum.IsClamped, Pow, Weight, Above, Below, RoundedAt, SameRatio, AllDigits, DecimalValue;
    ghost var num, den, n := numerator.Value(), denominator.Value(), 0;
    decimalPoint, length, n := BignumToFixed(requestedDigits, before, numerator, denominator, buffer);
    SidesPositive(exponent, 0);
    RoundedAtScale(n, num, den, significand * Above(exponent, 0), Below(exponent, 0), before - 1, before - 1 + requestedDigits);
  }

  /** The case of BIGNUM_DTOA_PRECISION. */
  method Count(significand: nat, exponent: int, requestedDigits: nat, before: int,
               numerator: Bignum, denominator: Bignum, buffer: array<char>) returns (length: nat, decimalPoint: int)
    requires numerator.Normal() && denominator.Normal() && numerator.bigits != denominator.bigits
    requires 0 < denominator.Value() <= numerator.Value() < 10 * denominator.Value()
    requires denominator.Value() * 10 < Weight(numerator.bigits.Length)
    requires SameRatio(numerator.Value(), denominator.Value(),
                       significand * Above(exponent, 0), Below(exponent, 0), before - 1)
    requires 0 < requestedDigits <= buffer.Length
    modifies numerator, numerator.bigits, buffer
    ensures length == requestedDigits
    ensures Promised(PRECISION, significand, exponent, false, requestedDigits, buffer[..length], decimalPoint)
  {
    hide Bignum.Value, Bignum.Valid, Bignum.IsClamped, Pow, Weight, Above, Below, RoundedAt, SameRatio, AllDigits, DecimalValue;
    ghost var num, den := numerator.Value(), denominator.Value();
    decimalPoint, length := GenerateCountedDigits(requestedDigits, before, numerator, denominator, buffer);
    ghost var n := DecimalValue(buffer[..length]) * Pow(10, decimalPoint - before);
    SidesPositive(exponent, 0);
    CountedAt(n, num, den, requestedDigits);
    RoundedAtScale(n, num, den, significand * Above(exponent, 0), Below(exponent, 0), before - 1, requestedDigits - 1);
    TenOrOne(DecimalValue(buffer[..length]), decimalPoint - before);
  }

  /** One power of ten more. */
  lemma NextPower(exponent: int, power: int)
    ensures power >= 0 ==> Above(exponent, power + 1) == Above(exponent, power) && Below(exponent, power + 1) == 10 * Below(exponent, power)
    ensures power < 0 ==> Above(exponent, power) == 10 * Above(exponent, power + 1) && Below(exponent, power + 1) == Below(exponent, power)
  {
    hide Pow;
    if power >= 0 {
      TenMore(power);
      Associate(10, Pow(10, power), Pow(2, Max(-exponent, 0)));
    } else {
      TenMore(-power - 1);
      MulTen(Pow(2, Max(exponent, 0)), Pow(10, -power - 1));
    }
  }

  lemma {:induction false} ThirteenBelowFour(k: nat)
    ensures Pow(2, 13 * k) <= Pow(10, 4 * k)
  {
    hide Pow;
    if k > 0 {
      ThirteenBelowFour(k - 1);
      PowAdd(2, 13, 13 * (k - 1));
      PowAdd(10, 4, 4 * (k - 1));
      TwoTo13();
      TenTo4();
      MulMonotone(Pow(2, 13 * (k - 1)), Pow(10, 4 * (k - 1)), 8192);
    } else {
      One();
    }
  }

  lemma TwoTo13()
    ensures Pow(2, 13) == 8192
  {
  }

  /** 10^351 is beyond every double. */
  lemma EnoughPower(significand: nat, exponent: int)
    requires DoubleShape(significand, exponent)
    ensures (2 * significand + 1) * Above(exponent, 350) < 20 * Below(exponent, 350)
  {
    hide Pow;
    One();
    var power: nat, e: nat, third: nat := 350, Max(exponent, 0), 87;
    ThirteenBelowFour(third);
    PowMonotone(10, 4 * third, power);
    PowMonotone(2, e, 971);
    LargeProduct(2 * significand + 1, Pow(2, e), Pow(2, 971));
    BitsOf54();
    PowAdd(2, 54, 971);
    PowMonotone(2, 54 + 971, 13 * third);
    MulMonotone(1, Pow(2, Max(-exponent, 0)), Pow(10, power));
  }

  lemma LargeProduct(f: nat, a: nat, b: nat)
    requires f <= 0x40_0000_0000_0000 && a <= b
    ensures f * a <= 0x40_0000_0000_0000 * b
  {
    MulMonotone(f, 0x40_0000_0000_0000, a);
    MulMonotone(a, b, 0x40_0000_0000_0000);
  }

  lemma BitsOf54()
    ensures Pow(2, 54) == 0x40_0000_0000_0000
  {
    hide Pow;
    TwoTo64();
    assert Pow(2, 6) == 64 by { BitsOf6(); }
    PowAdd(2, 32, 16);
    PowAdd(2, 48, 6);
  }

  lemma BitsOf6()
    ensures Pow(2, 6) == 64
  {
  }

  /** Going up from any power that is not too large, the first one above the upper boundary is a good estimate. */
  lemma {:induction false} FindEstimate(significand: nat, exponent: int, from: int) returns (power: int)
    requires DoubleShape(significand, exponent) && InRange(significand, exponent, from) && (exponent >= 0 ==> from >= 0)
    requires Below(exponent, from) <= 10 * (significand * Above(exponent, from))
    ensures GoodEstimate(significand, exponent, power)
    decreases 350 - from
  {
    hide Above, Below;
    if from == 350 {
      EnoughPower(significand, exponent);
      power := from;
    } else if (2 * significand + 1) * Above(exponent, from) < 20 * Below(exponent, from) {
      power := from;
    } else {
      NextPower(exponent, from);
      StillBelow(significand, Above(exponent, from), Below(exponent, from), Above(exponent, from + 1), Below(exponent, from + 1));
      power := FindEstimate(significand, exponent, from + 1);
    }
  }

  lemma StillBelow(f: nat, a: nat, b: nat, a': nat, b': nat)
    requires f > 0 && (2 * f + 1) * a >= 20 * b && ((a' == a && b' == 10 * b) || (a == 10 * a' && b' == b))
    ensures b' <= 10 * (f * a')
  {
    MulMonotone(2 * f + 1, 3 * f, a);
    Associate(3, f, a);
    if a == 10 * a' {
      MulTen(f, a');
    }
  }

  /** Every finite positive double has a good estimate. */
  lemma EstimateExists(significand: nat, exponent: int) returns (power: int)
    requires DoubleShape(significand, exponent)
    ensures GoodEstimate(significand, exponent, power)
  {
    hide Pow;
    One();
    if exponent >= 0 {
      MulMonotone(1, significand, Pow(2, exponent));
      Sides(exponent, 0);
      power := FindEstimate(significand, exponent, 0);
    } else {
      var k: nat := 87;
      Sides(exponent, -350);
      ThirteenBelowFour(k);
      PowMonotone(10, 4 * k, 350);
      PowMonotone(2, -exponent, 13 * k);
      MulMonotone(1, significand, Pow(10, 350));
      power := FindEstimate(significand, exponent, -350);
    }
  }

  /** From a double to its decimal digits, in each of the three modes. */
  method BignumDtoa(significand: nat, exponent: int, lowerBoundaryIsCloser: bool, mode: Mode, requestedDigits: nat,
                    estimatedPower: int, buffer: array<char>) returns (length: nat, decimalPoint: int)
    requires GoodEstimate(significand, exponent, estimatedPower)
    requires significand < 0x20_0000_0000_0000 && (lowerBoundaryIsCloser ==> significand <= 0x10_0000_0000_0000)
    requires mode != SHORTEST ==> DoubleShape(significand, exponent)
    requires mode == SHORTEST ==> buffer.Length >= 18
    requires mode == FIXED ==> buffer.Length > Max(1, estimatedPower + 1 + requestedDigits)
    requires mode == PRECISION ==> 0 < requestedDigits < buffer.Length
    modifies buffer
    ensures length < buffer.Length
    ensures Promised(mode, significand, exponent, lowerBoundaryIsCloser, requestedDigits, buffer[..length], decimalPoint)
  {
    hide Bignum.Value, Bignum.Valid, Bignum.IsClamped, Pow, Weight, Above, Below, ScaledBy, Target.Normalized, Target.IsShortest;
    hide ShortestDecimal, RoundedAt, SameRatio, GoodEstimate, AllDigits, DecimalValue;
    if mode == FIXED && -estimatedPower - 1 > requestedDigits {
      buffer[0] := 0 as char;
      length := 0;
      decimalPoint := -(requestedDigits as int);
      FarTooSmall(significand, exponent, estimatedPower, requestedDigits);
      AllDigitsOfNothing();
      NoDigits();
      return;
    }
    var numerator := new Bignum();
    var denominator := new Bignum();
    var deltaMinus := new Bignum();
    var deltaPlus := new Bignum();
    decimalPoint := Prepare(significand, exponent, lowerBoundaryIsCloser, mode == SHORTEST, estimatedPower,
                            numerator, denominator, deltaMinus, deltaPlus);
    match mode {
      case SHORTEST =>
        length := Generate(significand, exponent, lowerBoundaryIsCloser, decimalPoint,
                           numerator, denominator, deltaMinus, deltaPlus, buffer);
      case FIXED =>
        length, decimalPoint := Fix(significand, exponent, requestedDigits, decimalPoint, numerator, denominator, buffer);
      case PRECISION =>
        length, decimalPoint := Count(significand, exponent, requestedDigits, decimalPoint, numerator, denominator, buffer);
    }
    ghost var digits := buffer[..length];
    buffer[length] := 0 as char;
    assert buffer[..length] == digits;
  }

  /** v is so small that nothing is left of it at the requested place. */
  lemma FarTooSmall(significand: nat, exponent: int, estimatedPower: int, requestedDigits: nat)
    requires GoodEstimate(significand, exponent, estimatedPower) && -estimatedPower - 1 > requestedDigits
    ensures RoundedAt(0, significand * Above(exponent, 0), Below(exponent, 0), requestedDigits)
  {
    hide Pow, Above, Below, RoundsHalfUp, SameRatio;
    var above, below := Above(exponent, estimatedPower), Below(exponent, estimatedPower);
    assert (2 * significand + 1) * above == 2 * (significand * above) + above;
    SidesPositive(exponent, estimatedPower);
    SidesPositive(exponent, 0);
    TooSmall(significand * above, below, -estimatedPower - requestedDigits);
    ScaledSides(exponent, estimatedPower);
    ScaleRatio(above, below, Above(exponent, 0), Below(exponent, 0), estimatedPower, significand, 1);
    RoundedAtScale(0, significand * above, below, significand * Above(exponent, 0), Below(exponent, 0),
                   estimatedPower, estimatedPower + requestedDigits);
  }

  lemma LongerBuffer(t: Target, size: nat)
    requires (t.minus + t.plus) * Pow(10, 16) > t.den && size >= 17
    ensures (t.minus + t.plus) * Pow(10, size - 1) > t.den
  {
    hide Pow;
    PowMonotone(10, 16, size - 1);
    MulMonotone(Pow(10, 16), Pow(10, size - 1), t.minus + t.plus);
  }

  lemma AtMost17(t: Target, length: nat)
    requires (t.minus + t.plus) * Pow(10, 16) > t.den
    requires length > 1 ==> (t.minus + t.plus) * Pow(10, length - 2) <= t.den
    ensures length <= 17
  {
    hide Pow;
    if length > 17 {
      PowMonotone(10, 16, length - 2);
      MulMonotone(Pow(10, 16), Pow(10, length - 2), t.minus + t.plus);
    }
  }

  lemma CountedAt(n: int, num: nat, den: nat, count: nat)
    requires count > 0 && RoundsHalfUp(n, num * Pow(10, count - 1), den)
    ensures RoundedAt(n, num, den, count - 1)
  {
  }

  lemma TenOrOne(x: int, k: nat)
    requires k <= 1
    ensures x * Pow(10, k) == if k == 0 then x else x * 10
  {
    assert Pow(10, 0) == 1 && Pow(10, 1) == 10 * Pow(10, 0);
  }
}
