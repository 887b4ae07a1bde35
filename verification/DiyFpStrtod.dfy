/** Reading a decimal with 64-bit arithmetic: fast, and aware of its own error (strtod.cc). */
module DiyFpStrtods {
  import opened Arithmetic
  import Cutting
  import opened Deciding
  import opened Decimals
  import opened DiyFps
  import opened ErrorAnalysis
  import opened Ieee
  import opened Intervals
  import opened Reals
  import opened Shortest
  import opened SmallestDenormal

  const MAX_UINT64: int := 0xFFFF_FFFF_FFFF_FFFF
  const MIN_DECIMAL_EXPONENT: int := -348
  const MAX_DECIMAL_EXPONENT: int := 340
  const DECIMAL_EXPONENT_DISTANCE: int := 8

  /** An entry of the table of cached powers of ten. */
  datatype CachedPower = CachedPower(f: nat, e: int, decimalExponent: int)

  /** The table's promise for a request: the next lower cached power, to within half a unit in the
      last place. */
  ghost predicate GoodPower(c: CachedPower, exponent: int) {
    && MSB <= c.f < WORD
    && c.decimalExponent <= exponent < c.decimalExponent + DECIMAL_EXPONENT_DISTANCE
    && -0.5 <= TenR(c.decimalExponent) * Two(-c.e) - c.f as real <= 0.5
  }

  ghost predicate GoodTable(powers: int -> CachedPower) {
    forall q: int :: MIN_DECIMAL_EXPONENT <= q <= MAX_DECIMAL_EXPONENT ==> GoodPower(powers(q), q)
  }

  /** Reads as many digits as fit into a word for certain. */
  method ReadUint64(buffer: seq<char>) returns (result: nat, numberOfReadDigits: nat)
    requires AllDigits(buffer)
    ensures numberOfReadDigits <= |buffer| && result == DecimalValue(buffer[..numberOfReadDigits])
    ensures result <= MAX_UINT64 / 10 * 10 - 1
    ensures numberOfReadDigits < |buffer| ==> result > MAX_UINT64 / 10 - 1
  {
    result := 0;
    var i := 0;
    while i < |buffer| && result <= MAX_UINT64 / 10 - 1
      invariant 0 <= i <= |buffer| && result == DecimalValue(buffer[..i])
      invariant 0 <= result <= MAX_UINT64 / 10 * 10 - 1
    {
      var digit := Digit(buffer[i]);
      assert buffer[..i + 1] == buffer[..i] + [buffer[i]];
      DecimalAppend(buffer[..i], buffer[i]);
      i := i + 1;
      result := 10 * result + digit;
    }
    numberOfReadDigits := i;
  }

  /** The leading digits, rounded when some are left over. */
  method ReadDiyFp(buffer: seq<char>) returns (result: DiyFp, remainingDecimals: nat)
    requires AllDigits(buffer)
    ensures fresh(result) && result.Valid() && result.e == 0
    ensures remainingDecimals == 0 ==> result.f == DecimalValue(buffer)
    ensures |buffer| <= 18 ==> remainingDecimals == 0
    ensures remainingDecimals > 0 ==>
              && result.f > MAX_UINT64 / 10 - 1 && remainingDecimals < |buffer|
              && HalfClose(DecimalValue(buffer), result.f, Pow(10, remainingDecimals))
  {
    hide Pow;
    var significand, readDigits := ReadUint64(buffer);
    assert buffer[..0] == [];
    if |buffer| == readDigits {
      assert buffer[..readDigits] == buffer;
      result := new DiyFp(significand, 0);
      remainingDecimals := 0;
    } else {
      RoundLeading(buffer, readDigits);
      FewDigitsFit(buffer[..readDigits]);
      if buffer[readDigits] >= '5' {
        significand := significand + 1;
      }
      result := new DiyFp(significand, 0);
      remainingDecimals := |buffer| - readDigits;
    }
  }

  lemma FewDigitsFit(s: seq<char>)
    requires AllDigits(s)
    ensures |s| <= 18 ==> DecimalValue(s) <= MAX_UINT64 / 10 - 1
  {
    if |s| <= 18 {
      DecimalBound(s);
      PowMonotone(10, |s|, 18);
      PowAdd(10, 9, 9);
    }
  }

  /** Twice the distance of value from f * scale is at most scale. */
  predicate HalfClose(value: int, f: int, scale: int) {
    -scale <= 2 * value - 2 * (f * scale) <= scale
  }

  lemma RoundLeading(buffer: seq<char>, i: nat)
    requires AllDigits(buffer) && i < |buffer|
    ensures var f := DecimalValue(buffer[..i]) + (if buffer[i] >= '5' then 1 else 0);
            HalfClose(DecimalValue(buffer), f, Pow(10, |buffer| - i))
  {
    hide DecimalValue;
    var head, next, rest := buffer[..i], [buffer[i]], buffer[i + 1..];
    assert buffer == head + next + rest;
    DecimalConcat(head + next, rest);
    DecimalAppend(head, buffer[i]);
    DecimalBound(rest);
    var h, d, p := DecimalValue(head), Digit(buffer[i]), Pow(10, |rest|);
    assert Pow(10, |buffer| - i) == 10 * p;
    RoundAlgebra(h, d, p, DecimalValue(rest));
  }

  lemma RoundAlgebra(h: int, d: int, p: nat, t: int)
    requires 0 <= d <= 9 && 0 <= t < p
    ensures var v := (10 * h + d) * p + t;
            HalfClose(v, h + (if d >= 5 then 1 else 0), 10 * p)
  {
    assert (10 * h + d) * p == h * (10 * p) + d * p;
    assert (h + 1) * (10 * p) == h * (10 * p) + 10 * p;
    if d >= 5 {
      MulMonotone(5, d, p);
      MulMonotone(d, 9, p);
    } else {
      MulMonotone(d, 4, p);
      MulMonotone(0, d, p);
    }
  }

  /** What was read, as an approximation with an error in eighths. */
  lemma ReadIsNear(m: nat, f: nat, r: nat)
    requires if r == 0 then f == m else HalfClose(m, f, Pow(10, r))
    ensures Near(Exact(m, -(r as int)), f, 0, if r == 0 then 0 else 4)
  {
    hide TenR, Pow;
    TwoZero();
    var back: int := -(r as int);
    assert Exact(m, back) * Two(0) == Exact(m, back);
    if r == 0 {
      TenZero();
    } else {
      var s := Pow(10, r);
      TenAdd(back, r);
      TenZero();
      TenIsPow(r);
      CastProduct(f, s);
      var v := Exact(m, back);
      assert v * (s as real) == m as real by {
        assert ((m as real) * TenR(back)) * TenR(r) == (m as real) * (TenR(back) * TenR(r));
      }
      HalfToEighths(v, f as real, s as real, m as real);
    }
  }

  lemma HalfToEighths(v: real, f: real, s: real, m: real)
    requires s > 0.0 && v * s == m && -s <= 2.0 * m - 2.0 * (f * s) <= s
    ensures -4.0 <= 8.0 * v - 8.0 * f <= 4.0
  {
    var x, y := v - f, f - v;
    DistributeR(v, f, s);
    HalfBound(x, s, x * s);
    HalfBound(y, s, y * s);
  }

  lemma HalfBound(y: real, s: real, z: real)
    requires s > 0.0 && z == y * s && 2.0 * z <= s
    ensures 2.0 * y <= 1.0
  {
    Twofold(y, s);
    if 2.0 * y > 1.0 {
      StrictR(1.0, 2.0 * y, s);
    }
  }

  lemma Twofold(y: real, s: real)
    ensures (2.0 * y) * s == 2.0 * (y * s)
  {
  }

  /** Exact powers of ten between two cached ones. */
  method AdjustmentPowerOfTen(exponent: int) returns (power: DiyFp)
    requires 0 < exponent < DECIMAL_EXPONENT_DISTANCE
    ensures fresh(power) && power.Valid() && power.f >= MSB && power.e < 0
    ensures power.f == Pow(10, exponent) * Pow(2, -power.e)
    ensures exponent == 6 ==> power.f == 0xf424_0000_0000_0000 && power.e == -44
  {
    SmallPowers();
    match exponent {
      case 1 => power := new DiyFp(0xa000_0000_0000_0000, -60);
      case 2 => power := new DiyFp(0xc800_0000_0000_0000, -57);
      case 3 => power := new DiyFp(0xfa00_0000_0000_0000, -54);
      case 4 => power := new DiyFp(0x9c40_0000_0000_0000, -50);
      case 5 => power := new DiyFp(0xc350_0000_0000_0000, -47);
      case 6 => power := new DiyFp(0xf424_0000_0000_0000, -44);
      case _ => power := new DiyFp(0x9896_8000_0000_0000, -40);
    }
  }

  lemma SmallPowers()
    ensures Pow(10, 1) == 10 && Pow(10, 2) == 100 && Pow(10, 3) == 1000 && Pow(10, 4) == 10000
    ensures Pow(10, 5) == 10_0000 && Pow(10, 6) == 100_0000 && Pow(10, 7) == 1000_0000
    ensures Pow(2, 40) == 0x100_0000_0000 && Pow(2, 44) == 0x1000_0000_0000 && Pow(2, 47) == 0x8000_0000_0000
    ensures Pow(2, 50) == 0x4_0000_0000_0000 && Pow(2, 54) == 0x40_0000_0000_0000
    ensures Pow(2, 57) == 0x200_0000_0000_0000 && Pow(2, 60) == 0x1000_0000_0000_0000
  {
    PowAdd(2, 10, 10);
    PowAdd(2, 20, 20);
    PowAdd(2, 40, 4);
    PowAdd(2, 40, 7);
    PowAdd(2, 40, 10);
    PowAdd(2, 50, 4);
    PowAdd(2, 50, 7);
    PowAdd(2, 50, 10);
  }

  /** The adjustment powers are exact. */
  lemma ExactPower(k: nat, f: nat, e: int)
    requires e < 0 && f == Pow(10, k) * Pow(2, -e)
    ensures TenR(k) * Two(-e) == f as real
  {
    hide TenR, Two, Pow;
    CastProduct(Pow(10, k), Pow(2, -e));
    TenIsPow(k);
    TwoIsPow(-e);
  }

  /** The half-way point of the smallest denormal lies just below the number, yet the approximation is
      below it: the one case where the error count is not enough. */
  ghost predicate MissesSmallest(m: nat, p: int, order: int) {
    order == -1075 && Exact(m, p) > Two(-1075)
  }

  /** So many bits below the significand, and such an error in eighths, once both fit a word (strtod.cc:366-380). */
  function FittedCount(count0: nat): nat {
    if count0 + 3 >= 64 then 60 else count0
  }

  function FittedError(error0: nat, count0: nat): nat
    requires count0 <= 64
  {
    if count0 + 3 >= 64 then error0 / Pow(2, count0 - FittedCount(count0)) + 9 else error0
  }

  /** The bits below the significand are further from half way than the error: the result is called correct. */
  predicate Accepts(f: nat, e: int, error0: nat) {
    var count0 := 64 - SignificandSizeForOrderOfMagnitude(64 + e);
    11 <= count0 <= 64 &&
    var count, error := FittedCount(count0), FittedError(error0, count0);
    var precisionBits, halfWay := f / Pow(2, count0 - count) % Pow(2, count) * 8, Pow(2, count - 1) * 8;
    !(halfWay - error < precisionBits < halfWay + error)
  }

  lemma SizeBounds(order: int)
    ensures var size := SignificandSizeForOrderOfMagnitude(order);
            && 0 <= size <= 53
            && (order - size > DENORMAL_EXPONENT ==> size == 53)
            && (order - size < DENORMAL_EXPONENT ==> size == 0)
            && (order < DENORMAL_EXPONENT ==> size == 0)
  {
  }

  lemma AcceptsIs(f: nat, e: int, error0: nat, count0: int, count: nat, error: nat, precisionBits: nat, halfWay: nat, correct: bool)
    requires count0 == 64 - SignificandSizeForOrderOfMagnitude(64 + e) && 11 <= count0 <= 64
    requires count == FittedCount(count0) && error == FittedError(error0, count0)
    requires precisionBits == f / Pow(2, count0 - count) % Pow(2, count) * 8 && halfWay == Pow(2, count - 1) * 8
    requires correct == !(halfWay - error < precisionBits < halfWay + error)
    ensures Accepts(f, e, error0) == correct
  {
    hide Pow;
  }

  /** For tiny numbers the half-way point would leave the word: drop some low bits. */
  method FitPrecision(input: DiyFp, error0: nat, count0: nat, ghost v: real) returns (error: nat, count: nat)
    requires input.Valid() && StrictlyNear(v, input.f, input.e, error0)
    requires error0 <= 200 && 11 <= count0 <= 64
    modifies input
    ensures input.Valid() && StrictlyNear(v, input.f, input.e, error) && error <= 200
    ensures 11 <= count <= 60 && count <= count0 && input.e + count == old(input.e) + count0
    ensures input.f == old(input.f) / Pow(2, count0 - count)
    ensures count == FittedCount(count0) && error == FittedError(error0, count0)
  {
    hide Pow, StrictlyNear;
    error, count := error0, count0;
    One();
    if count0 + 3 >= 64 {
      var shiftAmount := count0 + 3 - 64 + 1;
      DropNear(v, input.f, input.e, error0, shiftAmount);
      ShiftsDown(error0, shiftAmount);
      ShiftsDown(input.f, shiftAmount);
      input.f := input.f / Pow(2, shiftAmount);
      input.e := input.e + shiftAmount;
      error := error0 / Pow(2, shiftAmount) + 1 + 8;
      count := count0 - shiftAmount;
    }
  }

  lemma ShiftsDown(f: nat, s: nat)
    requires s > 0
    ensures f / Pow(2, s) <= f / 2
  {
    hide Pow;
    One();
    PowMonotone(2, 1, s);
    Quotients(f, 2, Pow(2, s));
  }

  lemma Quotients(f: nat, a: nat, b: nat)
    requires 0 < a <= b
    ensures 0 <= f / b <= f / a
  {
    var q, q' := f / b, f / a;
    assert f == q * b + f % b && f == q' * a + f % a;
    assert (q' + 1) * a == q' * a + a;
    MulMonotone(a, b, q);
    MulCancel(q, q' + 1, a);
  }

  /** Shifting twice, so that what is left is the significand of a double. */
  lemma LeadingBits(f: nat, count0: nat, count: nat)
    requires MSB <= f < WORD && 11 <= count <= 60 && count <= count0 <= 64
    ensures 0 <= (f / Pow(2, count0 - count)) / Pow(2, count) == f / Pow(2, count0)
    ensures f / Pow(2, count0) < 2 * HIDDEN_BIT
    ensures count0 == 11 ==> f / Pow(2, count0) >= HIDDEN_BIT
    ensures count0 == 64 ==> f / Pow(2, count0) == 0
  {
    hide Pow;
    var a, b := Pow(2, count0 - count), Pow(2, count);
    PowAdd(2, count0 - count, count);
    DivideTwice(f, a, b);
    PowMonotone(2, 11, count0);
    Eleven();
    Quotients(f, 0x800, Pow(2, count0));
  }

  lemma Eleven()
    ensures Pow(2, 11) == 0x800 && Pow(2, 64) == WORD
  {
    PowAdd(2, 8, 8);
    PowAdd(2, 16, 16);
    PowAdd(2, 32, 32);
  }

  lemma DivideTwice(f: nat, a: nat, b: nat)
    requires a > 0 && b > 0 && a * b > 0
    ensures (f / a) / b == f / (a * b)
  {
    var q, low := f / a, f % a;
    DivMod(f, a, q, low);
    var r, high := q / b, q % b;
    DivMod(q, b, r, high);
    Nested(f, a, b, q, low, r, high);
    QuotientIs(f, a * b, r, high * a + low);
  }

  lemma Nested(f: int, a: int, b: int, q: int, low: int, r: int, high: int)
    requires f == q * a + low && q == r * b + high && 0 <= low < a && 0 <= high < b
    ensures f == r * (a * b) + (high * a + low) && 0 <= high * a + low < a * b
  {
    assert (r * b + high) * a == r * (a * b) + high * a;
    MulMonotone(high, b - 1, a);
    MulMonotone(0, high, a);
    assert (b - 1) * a == a * b - a;
  }

  lemma QuotientIs(f: nat, n: nat, r: nat, rest: nat)
    requires 0 <= rest < n && f == r * n + rest
    ensures f / n == r
  {
    var q := f / n;
    assert f == q * n + f % n;
    assert (q + 1) * n == q * n + n && (r + 1) * n == r * n + n;
    MulCancel(q, r + 1, n);
    MulCancel(r, q + 1, n);
  }

  /** What the bits below the significand r tell about v, a number near it. */
  ghost predicate Decided(v: real, r: nat, x: int, up: bool, correct: bool) {
    && (4.0 * (r as real) - 1.0) * Two(x - 2) < v < (2.0 * (r as real) + 3.0) * Two(x - 1)
    && (correct && up ==> v > (2.0 * (r as real) + 1.0) * Two(x - 1))
    && (correct && !up ==> v < (2.0 * (r as real) + 1.0) * Two(x - 1))
    && (!correct ==> !up)
  }

  lemma BitsDecide(v: real, f: nat, e: int, error: nat, count: nat, r: nat, precisionBits: nat, halfWay: nat, correct: bool)
    requires StrictlyNear(v, f, e, error) && error <= 200 && count >= 11 && r == f / Pow(2, count)
    requires precisionBits == f % Pow(2, count) * 8 && halfWay == Pow(2, count - 1) * 8
    requires correct == !(halfWay - error < precisionBits < halfWay + error)
    ensures Decided(v, r, e + count, precisionBits >= halfWay + error, correct)
  {
    hide Pow, Two, StrictlyNear;
    Bracket(v, f, e, error, count, r, f % Pow(2, count));
  }

  /** Rounds the significand to the precision of the double it becomes, and says whether the error
      could have mattered. */
  method RoundToDouble(input: DiyFp, error0: nat, ghost m: nat, ghost p: int) returns (correct: bool, result: Double)
    requires input.Valid() && input.f >= MSB && StrictlyNear(Exact(m, p), input.f, input.e, error0) && error0 <= 200
    modifies input
    ensures correct ==> RoundsTo(result, m, p) || MissesSmallest(m, p, 64 + old(input.e))
    ensures !correct ==> RoundsTo(result, m, p) || RoundsTo(NextDouble(result), m, p)
    ensures correct == Accepts(old(input.f), old(input.e), error0)
    ensures 64 + old(input.e) < DENORMAL_EXPONENT ==> result == 0
  {
    hide Pow, StrictlyNear, Exact, RoundsTo, Two, Accepts, FittedCount, FittedError, Decided,
      SignificandSizeForOrderOfMagnitude;
    ghost var v, f0, e0 := Exact(m, p), input.f, input.e;
    var orderOfMagnitude := 64 + input.e;
    SizeBounds(orderOfMagnitude);
    var effectiveSignificandSize := SignificandSizeForOrderOfMagnitude(orderOfMagnitude);
    var count0 := 64 - effectiveSignificandSize;
    var error, count := FitPrecision(input, error0, count0, v);
    LeadingBits(f0, count0, count);
    HalfFits(count);
    var precisionBits, halfWay := input.f % Pow(2, count), Pow(2, count - 1);
    precisionBits := precisionBits * 8;
    halfWay := halfWay * 8;
    assert precisionBits < WORD && halfWay < WORD && error <= halfWay;
    var roundedF, roundedE := input.f / Pow(2, count), input.e + count;
    ghost var r := roundedF;
    if precisionBits >= halfWay + error {
      roundedF := roundedF + 1;
    }
    result := DiyFpToUint64(roundedF, roundedE);
    correct := !(halfWay - error < precisionBits < halfWay + error);
    BitsDecide(v, input.f, input.e, error, count, r, precisionBits, halfWay, correct);
    AcceptsIs(f0, e0, error0, count0, count, error, precisionBits, halfWay, correct);
    ConcludeRounding(m, p, r, roundedE, roundedF > r, correct, result);
  }

  lemma HalfFits(count: nat)
    requires 11 <= count <= 60
    ensures Pow(2, count) * 8 <= WORD && Pow(2, count - 1) >= 1024 && Pow(2, count) == 2 * Pow(2, count - 1)
  {
    hide Pow;
    var n, k := 60, 10;
    PowMonotone(2, count, n);
    PowMonotone(2, k, count - 1);
    PowAdd(2, count - 1, 1);
    One();
    SmallPowers();
    assert Pow(2, 10) == 1024 by { PowAdd(2, 5, 5); Thirtytwo(); }
  }

  lemma Thirtytwo()
    ensures Pow(2, 5) == 32
  {
  }

  lemma ConcludeRounding(m: nat, p: int, r: nat, x: int, up: bool, correct: bool, result: Double)
    requires r < 2 * HIDDEN_BIT && (x > DENORMAL_EXPONENT ==> r >= HIDDEN_BIT) && (x < DENORMAL_EXPONENT ==> r == 0)
    requires Decided(Exact(m, p), r, x, up, correct)
    requires var s := if up then r + 1 else r;
             var t, y := if s == 2 * HIDDEN_BIT then HIDDEN_BIT else s, if s == 2 * HIDDEN_BIT then x + 1 else x;
             if y >= MAX_EXPONENT then result == INFINITY
             else if y < DENORMAL_EXPONENT then result == 0
             else result < INFINITY && Units(result) == t * Pow(2, y + 1074)
    ensures correct ==> RoundsTo(result, m, p) || MissesSmallest(m, p, x)
    ensures !correct ==> RoundsTo(result, m, p) || RoundsTo(NextDouble(result), m, p)
  {
    hide Two, Pow, RoundsTo, Exact, Units;
    if x < DENORMAL_EXPONENT {
      Underflows(m, p, x);
    } else if x >= MAX_EXPONENT {
      Overflows(m, p, r, x);
    } else {
      var d := Encoded(r, x);
      SideDecides(m, p, r, x, d);
      UnitsOf(d, r, x);
      if up {
        NextUnits(d, r, x);
        if result < INFINITY {
          SameUnits(result, d + 1);
        }
      } else {
        SameUnits(result, d);
      }
    }
  }

  lemma UnitsOf(d: Double, r: nat, x: int)
    requires r < 2 * HIDDEN_BIT && DENORMAL_EXPONENT <= x < MAX_EXPONENT && (r >= HIDDEN_BIT || x == DENORMAL_EXPONENT)
    requires d == Encoded(r, x)
    ensures Units(d) == r * Pow(2, x + 1074)
  {
  }

  /** Rounding up gives the successor, also when the significand overflows into the next exponent. */
  lemma NextUnits(d: Double, r: nat, x: int)
    requires r < 2 * HIDDEN_BIT && DENORMAL_EXPONENT <= x < MAX_EXPONENT && (r >= HIDDEN_BIT || x == DENORMAL_EXPONENT)
    requires d == Encoded(r, x)
    ensures r + 1 < 2 * HIDDEN_BIT ==> d + 1 < INFINITY && Units(d + 1) == (r + 1) * Pow(2, x + 1074)
    ensures r + 1 == 2 * HIDDEN_BIT && x + 1 < MAX_EXPONENT ==>
              d + 1 < INFINITY && Units(d + 1) == HIDDEN_BIT * Pow(2, x + 1 + 1074)
    ensures r + 1 == 2 * HIDDEN_BIT && x + 1 >= MAX_EXPONENT ==> d + 1 == INFINITY
  {
    Successor(d);
    Distribute(r, 1, Pow(2, x + 1074));
    assert Pow(2, x + 1 + 1074) == 2 * Pow(2, x + 1074);
  }

  /** A product below 2^64 that both factors hold with all their bits set to the top is exact. */
  lemma ShortProductIsExact(f: nat, g: nat, digits: nat, s: nat, k: nat, t: nat)
    requires MSB <= f < WORD && MSB <= g < WORD && k > 0
    requires f == digits * Pow(2, s) && g == Pow(10, k) * Pow(2, t)
    requires digits * Pow(10, k) < WORD
    ensures Rounded(f * g) * WORD == f * g
  {
    hide Pow, Rounded;
    var n, b := digits * Pow(10, k), Pow(2, s + t);
    PowAdd(2, s, t);
    Regroup(digits, Pow(2, s), Pow(10, k), Pow(2, t));
    assert f * g == n * b;
    MulMonotone(MSB, f, MSB);
    MulMonotone(MSB, g, f);
    EnoughShift(n, s + t);
    EvenPower(digits, k);
    MultipleOfWord(n, s + t);
  }

  lemma EnoughShift(n: nat, u: nat)
    requires n < WORD && n * Pow(2, u) >= MSB * MSB
    ensures u >= 63
  {
    hide Pow;
    if u < 63 {
      var n62 := 62;
      PowMonotone(2, u, n62);
      PowAdd(2, n62, 2);
      Eleven();
      FourIsPower();
      MulMonotone(Pow(2, u), Pow(2, n62), n);
    }
  }

  lemma FourIsPower()
    ensures Pow(2, 2) == 4
  {
  }

  lemma MultipleOfWord(n: nat, u: nat)
    requires u >= 63 && n % 2 == 0
    ensures Rounded(n * Pow(2, u)) * WORD == n * Pow(2, u)
  {
    hide Pow, Rounded;
    Eleven();
    One();
    PowAdd(2, u - 63, 63);
    PowAdd(2, 63, 1);
    var h := n / 2;
    assert n == 2 * h;
    var q := h * Pow(2, u - 63);
    Together(h, Pow(2, u - 63), Pow(2, 63));
    RoundedMultiple(q);
  }

  lemma Together(h: int, x: int, y: int)
    ensures (2 * h) * (x * y) == (h * x) * (y * 2)
  {
    assert h * (x * y) == (h * x) * y;
  }

  lemma RoundedMultiple(q: nat)
    ensures Rounded(q * WORD) == q
  {
  }

  lemma EvenPower(digits: nat, k: nat)
    requires k > 0
    ensures (digits * Pow(10, k)) % 2 == 0
  {
    var x := digits * (5 * Pow(10, k - 1));
    assert digits * (10 * Pow(10, k - 1)) == 2 * x;
  }

  /** The multiplications: by an exact power of ten if the table has gaps there, then by the cached power. */
  method ScaleByPowers(input: DiyFp, exponent: int, length: nat, error0: nat, powers: int -> CachedPower,
                       ghost v: real, ghost whole: real, ghost digits: nat, ghost shift: nat) returns (error: nat)
    requires input.Valid() && input.f >= MSB && Near(v, input.f, input.e, error0) && error0 <= 32
    requires whole == v * TenR(exponent)
    requires MIN_DECIMAL_EXPONENT <= exponent <= MAX_DECIMAL_EXPONENT && GoodTable(powers)
    requires length <= 18 ==> input.f == digits * Pow(2, shift) && digits < Pow(10, length) && error0 == 0
    modifies input
    ensures input.Valid() && input.f >= 0x2000_0000_0000_0000
    ensures StrictlyNear(whole, input.f, input.e, error) && error <= 45
    ensures var c, k := powers(exponent), exponent - powers(exponent).decimalExponent;
            0 <= k < DECIMAL_EXPONENT_DISTANCE &&
            (k == 6 ==> input.f == Rounded(Rounded(old(input.f) * 0xf424_0000_0000_0000) * c.f)
                        && input.e == old(input.e) - 44 + 64 + c.e + 64)
  {
    hide Pow, TenR, Two, Rounded, Near, StrictlyNear;
    var cached := powers(exponent);
    ghost var k, w := exponent - cached.decimalExponent, v;
    error := error0;
    if cached.decimalExponent != exponent {
      error, w := Adjust(input, exponent - cached.decimalExponent, length, error0, v, digits, shift);
    }
    TenAdd(k, cached.decimalExponent);
    TenZero();
    ghost var t := TenR(cached.decimalExponent);
    assert whole == w * t by {
      assert (v * TenR(k)) * t == v * (TenR(k) * t);
    }
    ProductNear(w, input.f, input.e, error, t, cached.f, cached.e, false, whole);
    RoundedAtLeast(input.f, 0x4000_0000_0000_0000, cached.f);
    var power := new DiyFp(cached.f, cached.e);
    input.Multiply(power);
    var errorB, errorAB, fixedError := 4, if error == 0 then 0 else 1, 4;
    WiderNear(whole, input.f, input.e, error + 8, error + 8 + errorAB);
    error := error + errorB + errorAB + fixedError;
  }

  lemma RoundedAtLeast(f: nat, low: nat, g: nat)
    requires f >= low && MSB <= g
    ensures Rounded(f * g) >= low / 2
  {
    MulMonotone(MSB, g, f);
    MulMonotone(low, f, MSB);
  }

  method Adjust(input: DiyFp, adjustment: int, length: nat, error0: nat,
                ghost v: real, ghost digits: nat, ghost shift: nat) returns (error: nat, ghost w: real)
    requires input.Valid() && input.f >= MSB && Near(v, input.f, input.e, error0) && error0 <= 32
    requires 0 < adjustment < DECIMAL_EXPONENT_DISTANCE
    requires length <= 18 ==> input.f == digits * Pow(2, shift) && digits < Pow(10, length) && error0 == 0
    modifies input
    ensures input.Valid() && input.f >= 0x4000_0000_0000_0000
    ensures w == v * TenR(adjustment) && Near(w, input.f, input.e, error) && error <= 36
    ensures adjustment == 6 ==> input.f == Rounded(old(input.f) * 0xf424_0000_0000_0000) && input.e == old(input.e) - 44 + 64
  {
    hide Pow, TenR, Two, Rounded, Near;
    error, w := error0, v * TenR(adjustment);
    var power := AdjustmentPowerOfTen(adjustment);
    ExactPower(adjustment, power.f, power.e);
    RoundedAtLeast(input.f, MSB, power.f);
    if 19 - length >= adjustment {
      ShortProduct(digits, length, adjustment);
      ShortProductIsExact(input.f, power.f, digits, shift, adjustment, -power.e);
      ExactProductNear(v, input.f, input.e, TenR(adjustment), power.f, power.e, w);
    } else {
      ProductNear(v, input.f, input.e, error0, TenR(adjustment), power.f, power.e, true, w);
      error := error + 4;
    }
    input.Multiply(power);
  }

  lemma ShortProduct(digits: nat, length: nat, k: nat)
    requires digits < Pow(10, length) && length + k <= 19
    ensures digits * Pow(10, k) < WORD
  {
    hide Pow;
    var n := 19;
    MulStrict(digits, Pow(10, length), Pow(10, k));
    PowAdd(10, length, k);
    PowMonotone(10, length + k, n);
    TenTo19();
  }

  /** The entry the table holds for the smallest exponents. */
  const FIRST_ENTRY: CachedPower := CachedPower(FIRST_POWER, -1220, MIN_DECIMAL_EXPONENT)

  /** All that is asked of the table: every entry is good, and the first one is what it is. */
  ghost predicate Table(powers: int -> CachedPower) {
    && GoodTable(powers)
    && (forall q: int :: MIN_DECIMAL_EXPONENT <= q < MIN_DECIMAL_EXPONENT + DECIMAL_EXPONENT_DISTANCE ==> powers(q) == FIRST_ENTRY)
  }

  /** The number of digits left out, and the rounded leading ones, of a number just above 2^-1075. */
  lemma DigitsRead(m: nat, n: nat, f: nat, r: nat)
    requires n >= 19 && 10 * m > (10 * LEADING + 8) * Pow(10, n - 19) && m < (LEADING + 5) * Pow(10, n - 19)
    requires f < WORD
    requires if r == 0 then f == m else f > MAX_UINT64 / 10 - 1 && HalfClose(m, f, Pow(10, r))
    ensures r == n - 19 && LEADING + 1 <= f <= LEADING + 5
  {
    hide Pow;
    var s := Pow(10, n - 19);
    if r == 0 {
      if n > 19 {
        TenfoldPower(0, n - 19);
      }
      Zero();
    } else if r > n - 19 {
      TenfoldPower(n - 19, r);
      var t := Pow(10, r);
      assert (LEADING + 5) * (10 * s) == 10 * ((LEADING + 5) * s);
      MulMonotone(10 * s, t, LEADING + 5);
      MulMonotone(MAX_UINT64 / 10, f, t);
      assert false;
    } else if r < n - 19 {
      TenfoldPower(r, n - 19);
      var t := Pow(10, r);
      MulMonotone(10 * t, s, 10 * LEADING + 8);
      MulMonotone(f, WORD, t);
      assert false;
    } else {
      assert HalfClose(m, f, s);
      LastPlace(m, f, s);
    }
  }

  lemma TenfoldPower(a: nat, b: nat)
    requires a < b
    ensures Pow(10, b) >= 10 * Pow(10, a)
  {
    PowMonotone(10, a + 1, b);
  }

  lemma LastPlace(m: nat, f: nat, s: nat)
    requires s > 0 && 10 * m > (10 * LEADING + 8) * s && m < (LEADING + 5) * s && HalfClose(m, f, s)
    ensures LEADING + 1 <= f <= LEADING + 5
  {
    if f <= LEADING {
      MulMonotone(f, LEADING, s);
      assert false;
    } else if f >= LEADING + 6 {
      MulMonotone(LEADING + 6, f, s);
      assert false;
    }
  }

  /** So the case the error count alone would miss never arises. */
  lemma NeverMisses(m: nat, p: int, n: nat, f0: nat, r: nat, f1: nat, e1: int, f2: nat, e2: int, f: nat, e: int, err: nat)
    requires n > 0 && Pow(10, n - 1) <= m < Pow(10, n)
    requires f0 < WORD && (if r == 0 then f0 == m else f0 > MAX_UINT64 / 10 - 1 && HalfClose(m, f0, Pow(10, r)))
    requires e1 <= 0 && f1 == f0 * Pow(2, -e1) && MSB <= f1 < WORD
    requires p + r == -342 ==> f2 == Rounded(Rounded(f1 * MILLION) * FIRST_POWER) && e2 == e1 - 44 + 64 - 1220 + 64
    requires e <= e2 && f == f2 * Pow(2, e2 - e) && f < WORD
    requires StrictlyNear(Exact(m, p), f, e, err) && err <= 200
    ensures !MissesSmallest(m, p, 64 + e)
  {
    hide Pow, Rounded;
    if MissesSmallest(m, p, 64 + e) {
      JustAbove(m, p, n, f, e, err);
      DigitsRead(m, n, f0, r);
      ShiftOfTwo(f0, -e1, f1);
      LargeEnough(f0);
      One();
      assert false;
    }
  }

  lemma UpperOf(v: real, f: nat, e: int, err: nat)
    requires StrictlyNear(v, f, e, err) && err <= 200 && f < WORD
    ensures v * Two(-e) < (WORD + 25) as real
  {
  }

  lemma JustAbove(m: nat, p: int, n: nat, f: nat, e: int, err: nat)
    requires n > 0 && Pow(10, n - 1) <= m < Pow(10, n)
    requires StrictlyNear(Exact(m, p), f, e, err) && err <= 200 && f < WORD && MissesSmallest(m, p, 64 + e)
    ensures p == -(n + 323) && n >= 19
    ensures 10 * m > (10 * LEADING + 8) * Pow(10, n - 19) && m < (LEADING + 5) * Pow(10, n - 19)
  {
    hide Pow, Two, Exact;
    var j := 1139;
    var c := (WORD + 25) as real;
    UpperOf(Exact(m, p), f, e, err);
    TwoAdd(j, -j);
    TwoZero();
    CancelR(Exact(m, p), c * Two(-j), Two(j));
    assert (c * Two(-j)) * Two(j) == c * (Two(-j) * Two(j));
    if p >= 0 {
      NotTiny(m, p, c, j);
    }
    SidesOf(m, -p, 1, 1075);
    SidesOf(m, -p, WORD + 25, 1139);
    LeadingDigits(m, n, -p);
  }

  lemma NotTiny(m: nat, p: int, c: real, j: int)
    requires p >= 0 && m > 0 && j == 1139 && c == (WORD + 25) as real
    ensures Exact(m, p) >= c * Two(-j)
  {
    hide Two, Pow, TenR;
    TenIsPow(p);
    var small := 65;
    GrowingTwo(-j, -small);
    TwoAdd(-small, small);
    TwoZero();
    TwoTo64R();
    TwoNext(64);
    MonotoneR(Two(-j), Two(-small), c);
    MonotoneR(c, Two(small), Two(-small));
    MonotoneR(1.0, m as real, TenR(p));
    AtLeastOne(p);
  }

  lemma AtLeastOne(p: nat)
    ensures TenR(p) >= 1.0
  {
    hide Pow;
    TenIsPow(p);
    PowPositive10(p);
  }

  lemma PowPositive10(p: nat)
    ensures Pow(10, p) >= 1
  {
  }

  lemma ShiftOfTwo(f0: nat, s: nat, f1: nat)
    requires LEADING + 1 <= f0 <= LEADING + 5 && f1 == f0 * Pow(2, s) && MSB <= f1 < WORD
    ensures s == 2 && f1 == 4 * f0
  {
    hide Pow;
    One();
    FourIsPower();
    if s < 2 {
      PowMonotone(2, s, 1);
      MulMonotone(Pow(2, s), 2, f0);
    } else if s > 2 {
      PowAdd(2, 2, 1);
      PowMonotone(2, 3, s);
      MulMonotone(8, Pow(2, s), f0);
    }
  }

  /** From there on the products round to at least 2^63. */
  lemma LargeEnough(f0: nat)
    requires LEADING + 1 <= f0
    ensures Rounded(Rounded((4 * f0) * MILLION) * FIRST_POWER) >= MSB
  {
    RoundedGrows(4 * (LEADING + 1), 4 * f0, MILLION);
    RoundedGrows(Rounded(4 * (LEADING + 1) * MILLION), Rounded((4 * f0) * MILLION), FIRST_POWER);
  }

  lemma RoundedGrows(x: nat, y: nat, z: nat)
    requires x <= y
    ensures Rounded(x * z) <= Rounded(y * z)
  {
    MulMonotone(x, y, z);
  }

  lemma ShiftBound(f0: nat, s: nat, f1: nat, low: nat, k: nat)
    requires f1 == f0 * Pow(2, s) && f1 < WORD && f0 >= low && low * Pow(2, k + 1) >= WORD
    ensures s <= k && Pow(2, s) <= Pow(2, k)
  {
    hide Pow;
    if s > k {
      PowMonotone(2, k + 1, s);
      MulMonotone(low, f0, Pow(2, k + 1));
      MulMonotone(Pow(2, k + 1), Pow(2, s), f0);
      assert false;
    }
    PowMonotone(2, s, k);
  }

  lemma SmallShifts()
    ensures Pow(2, 2) == 4 && Pow(2, 3) == 8 && Pow(2, 4) == 16
  {
  }

  /** Numbers below the range of the table are far below the smallest denormal. */
  lemma FarBelow(m: nat, r: nat, exponent: int, f: nat)
    requires exponent < MIN_DECIMAL_EXPONENT && f < WORD && Near(Exact(m, -(r as int)), f, 0, if r == 0 then 0 else 4)
    ensures RoundsTo(0, m, exponent - r)
  {
    hide Pow, TenR, Two, RoundsTo;
    var back: int := -(r as int);
    TenAdd(back, exponent);
    TwoZero();
    var v, whole := Exact(m, back), Exact(m, exponent - r);
    assert whole == v * TenR(exponent) by {
      assert (m as real) * (TenR(back) * TenR(exponent)) == ((m as real) * TenR(back)) * TenR(exponent);
    }
    TinyPower(exponent);
    TwoTo64R();
    var n: int, x: int := 64, -1150;
    TwoNext(n);
    assert v <= Two(n + 1);
    TwoAdd(n + 1, x);
    MonotoneR(v, Two(n + 1), TenR(exponent));
    MonotoneR(TenR(exponent), Two(x), Two(n + 1));
    GrowingTwo(n + 1 + x, -1077);
    Underflows(m, exponent - r, -1076);
  }

  lemma TinyPower(exponent: int)
    requires exponent < MIN_DECIMAL_EXPONENT
    ensures TenR(exponent) <= Two(-1150)
  {
    hide Pow, TenR, Two;
    var k, n: nat, j: nat := 25, -exponent, 1150;
    Powers();
    Cutting.EightBelowTen(k);
    PowAdd(2, 1075, 3 * k);
    PowAdd(10, 324, k);
    PowMonotone(10, 324 + k, n);
    MulMonotone(Pow(2, 1075), Pow(10, 324), Pow(2, 3 * k));
    MulMonotone(Pow(2, 3 * k), Pow(10, k), Pow(10, 324));
    TenIsPow(n);
    TwoIsPow(j);
    TenAdd(exponent, n);
    TwoAdd(-(j as int), j);
    TenZero();
    TwoZero();
    Reciprocals(TenR(exponent), TenR(n), Two(-(j as int)), Two(j));
  }

  lemma Reciprocals(a: real, x: real, b: real, y: real)
    requires a * x == 1.0 && b * y == 1.0 && 0.0 < y <= x && a > 0.0 && b > 0.0
    ensures a <= b
  {
    if a > b {
      StrictR(b, a, y);
      MonotoneR(y, x, a);
    }
  }

  /** If it returns true the result is the correctly rounded double, for decimals of any length;
      otherwise it is that double or the one just below. */
  method DiyFpStrtod(buffer: seq<char>, exponent0: int, powers: int -> CachedPower)
      returns (correct: bool, result: Double)
    requires AllDigits(buffer) && |buffer| > 0 && buffer[0] != '0'
    requires exponent0 + |buffer| <= MAX_DECIMAL_EXPONENT && Table(powers)
    ensures correct ==> RoundsTo(result, DecimalValue(buffer), exponent0)
    ensures !correct ==> RoundsTo(result, DecimalValue(buffer), exponent0)
                         || RoundsTo(NextDouble(result), DecimalValue(buffer), exponent0)
  {
    hide Pow, TenR, Two, RoundsTo, Exact, Near, StrictlyNear, Rounded, GoodPower, HalfClose, DecimalValue;
    ghost var m := DecimalValue(buffer);
    LeadingNonZero(buffer);
    var input, remainingDecimals := ReadDiyFp(buffer);
    ghost var f0, back: int := input.f, -(remainingDecimals as int);
    ReadIsNear(m, f0, remainingDecimals);
    var exponent := exponent0 + remainingDecimals;
    var error := if remainingDecimals == 0 then 0 else 4;
    var oldE := input.e;
    input.Normalize();
    FirstShift(Exact(m, back), f0, error, -input.e, input.f);
    error := error * Pow(2, oldE - input.e);
    if exponent < MIN_DECIMAL_EXPONENT {
      FarBelow(m, remainingDecimals, exponent, f0);
      return true, 0;
    }
    ghost var f1, e1 := input.f, input.e;
    ExactSum(m, back, exponent);
    error := ScaleByPowers(input, exponent, |buffer|, error, powers, Exact(m, back), Exact(m, exponent0), f0, -e1);
    ghost var f2, e2 := input.f, input.e;
    oldE := input.e;
    input.Normalize();
    SecondShift(Exact(m, exponent0), f2, e2, error, oldE - input.e, input.f);
    error := error * Pow(2, oldE - input.e);
    NeverMisses(m, exponent0, |buffer|, f0, remainingDecimals, f1, e1, f2, e2, input.f, input.e, error);
    correct, result := RoundToDouble(input, error, m, exponent0);
  }

  lemma FirstShift(v: real, f0: nat, error: nat, s: nat, f1: nat)
    requires Near(v, f0, 0, error) && f1 == f0 * Pow(2, s) && f1 < WORD
    requires error == 0 || (error == 4 && f0 > MAX_UINT64 / 10 - 1)
    ensures Near(v, f1, -(s as int), error * Pow(2, s)) && error * Pow(2, s) <= 32
  {
    hide Pow, Near;
    ShiftNear(v, f0, 0, error, s);
    SmallShifts();
    if error == 4 {
      ShiftBound(f0, s, f1, MAX_UINT64 / 10, 3);
    }
  }

  lemma SecondShift(v: real, f: nat, e: int, error: nat, s: nat, f1: nat)
    requires StrictlyNear(v, f, e, error) && error <= 45 && f >= 0x2000_0000_0000_0000
    requires f1 == f * Pow(2, s) && f1 < WORD
    ensures StrictlyNear(v, f1, e - s, error * Pow(2, s)) && error * Pow(2, s) <= 200
  {
    hide Pow, StrictlyNear;
    ShiftNear(v, f, e, error, s);
    SmallShifts();
    ShiftBound(f, s, f1, 0x2000_0000_0000_0000, 2);
    MulMonotone(Pow(2, s), 4, error);
  }

  lemma ExactSum(m: nat, a: int, b: int)
    ensures Exact(m, a) * TenR(b) == Exact(m, a + b)
  {
    hide TenR;
    TenAdd(a, b);
  }

  /** The table's first entry keeps the promise of the others. */
  lemma FirstEntryIsGood()
    ensures GoodPower(FIRST_ENTRY, MIN_DECIMAL_EXPONENT)
  {
    hide Pow, TenR, Two;
    FirstPowerIsClose();
    var q: int, n: nat, j: nat := -348, 348, 1220;
    TenAdd(q, n);
    TenZero();
    TenIsPow(n);
    TwoIsPow(j);
    CastProduct(FIRST_POWER, Pow(10, n));
    var a, s := TenR(q) * Two(j), Pow(10, n) as real;
    assert a * s == Two(j) by {
      assert (TenR(q) * Two(j)) * TenR(n) == (TenR(q) * TenR(n)) * Two(j);
    }
    var f := FIRST_POWER as real;
    DistributeR(a, f, s);
    HalfBound(a - f, s, (a - f) * s);
    HalfBound(f - a, s, (f - a) * s);
  }

  /** The error count alone would not do: this approximation of a number above half the smallest
      denormal is within nine eighths and is accepted, for an order of magnitude that gives zero. */
  lemma ErrorCountMisses()
    ensures StrictlyNear(Exact(JUST_ABOVE, -345), WORD - 1, -1139, 9)
    ensures MissesSmallest(JUST_ABOVE, -345, 64 - 1139) && !RoundsTo(0, JUST_ABOVE, -345)
    ensures Accepts(WORD - 1, -1139, 9)
  {
    hide Pow, TenR, Two, Compare, Exact, Accepts;
    AcceptsBelow();
    JustAboveHalf();
    var v := Exact(JUST_ABOVE, -345);
    SidesOf(JUST_ABOVE, 345, 1, 1075);
    SidesOf(JUST_ABOVE, 345, 8 * WORD + 1, 1142);
    var a: int, b: int, c: int := 1075, 1139, 1142;
    TwoAdd(-a, b);
    TwoAdd(-c, c);
    TwoZero();
    TwoTo64R();
    TwoAdd(b, 3);
    Eight();
    var word := WORD as real;
    var high := (8.0 * word + 1.0) * Two(-c);
    assert high * Two(c) == (8.0 * word + 1.0) * (Two(-c) * Two(c));
    Sandwich(v, Two(-a), Two(b), high, Two(c), word);
    SmallBoundaries();
    CompareIsReal(JUST_ABOVE, -345, 1);
  }

  lemma AcceptsBelow()
    ensures Accepts(WORD - 1, -1139, 9)
  {
    hide Pow;
    FourAndSixty();
  }

  lemma FourAndSixty()
    ensures Pow(2, 4) == 16 && Pow(2, 59) == 0x800_0000_0000_0000 && Pow(2, 60) == 0x1000_0000_0000_0000
  {
    hide Pow;
    TwoTo64();
    HalfOf(64);
    HalfOf(63);
    HalfOf(62);
    HalfOf(61);
    HalfOf(60);
    TwoTo8();
    PowAdd(2, 60, 4);
  }

  /** So the fast path says that zero is the correct result, and it is not. */
  method AcceptsZero() returns (correct: bool, result: Double)
    ensures correct && result == 0 && !RoundsTo(result, JUST_ABOVE, -345)
  {
    ErrorCountMisses();
    var input := new DiyFp(WORD - 1, -1139);
    correct, result := RoundToDouble(input, 9, JUST_ABOVE, -345);
  }

  lemma Eight()
    ensures Two(3) == 8.0
  {
  }

  lemma Sandwich(v: real, low: real, x: real, high: real, y: real, word: real)
    requires x > 0.0 && y > 0.0 && y == x * 8.0 && low < v < high
    requires low * x == word && high * y == 8.0 * word + 1.0
    ensures -9.0 < 8.0 * (v * x) - 8.0 * (word - 1.0) < 9.0
  {
    StrictR(low, v, x);
    StrictR(v, high, y);
    assert v * y == 8.0 * (v * x);
  }
}
