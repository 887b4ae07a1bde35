/** Reading a decimal: trimming, a fast guess, and the exact comparison when that may be wrong (strtod.cc). */
module Strtods {
  import opened Arithmetic
  import opened Bigits
  import opened Bignums
  import opened Cutting
  import opened Decimals
  import opened DiyFpStrtods
  import opened Ieee
  import opened Intervals
  import opened Shortest
  import Deciding
  import Exponentiation
  import Scaling
  import SmallestDenormal

  const MAX_SIGNIFICANT_DECIMAL_DIGITS: nat := 780
  const MAX_DECIMAL_POWER: int := 309
  const MIN_DECIMAL_POWER: int := -324

  method TrimLeadingZeros(buffer: seq<char>) returns (trimmed: seq<char>)
    requires AllDigits(buffer)
    ensures AllDigits(trimmed) && |trimmed| <= |buffer| && trimmed == buffer[|buffer| - |trimmed|..]
    ensures DecimalValue(trimmed) == DecimalValue(buffer)
    ensures trimmed == [] || trimmed[0] != '0'
  {
    hide Pow;
    var i := 0;
    while i < |buffer|
      invariant 0 <= i <= |buffer| && DecimalValue(buffer[..i]) == 0
    {
      assert buffer == buffer[..i] + buffer[i..];
      DecimalConcat(buffer[..i], buffer[i..]);
      if buffer[i] != '0' {
        return buffer[i..];
      }
      assert buffer[..i + 1] == buffer[..i] + [buffer[i]];
      DecimalAppend(buffer[..i], buffer[i]);
      i := i + 1;
    }
    assert buffer[..i] == buffer;
    return [];
  }

  lemma ZeroInFront(s: seq<char>)
    ensures DecimalValue(['0'] + s) == DecimalValue(s)
  {
    hide Pow;
    DecimalConcat(['0'], s);
    assert ['0'] == [] + ['0'];
    DecimalAppend([], '0');
  }

  method TrimTrailingZeros(buffer: seq<char>) returns (trimmed: seq<char>)
    requires AllDigits(buffer)
    ensures AllDigits(trimmed) && trimmed <= buffer
    ensures DecimalValue(buffer) == DecimalValue(trimmed) * Pow(10, |buffer| - |trimmed|)
    ensures trimmed == [] || trimmed[|trimmed| - 1] != '0'
  {
    hide Pow, DecimalValue;
    NoDigits();
    var i := |buffer| - 1;
    assert buffer[i + 1..] == [];
    while i >= 0
      invariant -1 <= i < |buffer| && DecimalValue(buffer[i + 1..]) == 0
    {
      assert buffer == buffer[..i + 1] + buffer[i + 1..];
      DecimalConcat(buffer[..i + 1], buffer[i + 1..]);
      if buffer[i] != '0' {
        return buffer[..i + 1];
      }
      ZeroInFront(buffer[i + 1..]);
      assert buffer[i..] == ['0'] + buffer[i + 1..];
      i := i - 1;
    }
    assert buffer[i + 1..] == buffer;
    return [];
  }

  /** The first 779 digits followed by a one. */
  method CutToMaxSignificantDigits(buffer: seq<char>, exponent: int, significantBuffer: array<char>)
      returns (significantExponent: int)
    requires AllDigits(buffer) && |buffer| > MAX_SIGNIFICANT_DECIMAL_DIGITS && buffer[|buffer| - 1] != '0' && buffer[0] != '0'
    requires significantBuffer.Length == MAX_SIGNIFICANT_DECIMAL_DIGITS
    modifies significantBuffer
    ensures AllDigits(significantBuffer[..]) && significantBuffer[0] != '0'
    ensures SameSides(DecimalValue(buffer), exponent, DecimalValue(significantBuffer[..]), significantExponent)
    ensures significantExponent + MAX_SIGNIFICANT_DECIMAL_DIGITS == exponent + |buffer|
  {
    hide Pow, SameSides;
    var i := 0;
    while i < MAX_SIGNIFICANT_DECIMAL_DIGITS - 1
      invariant 0 <= i <= MAX_SIGNIFICANT_DECIMAL_DIGITS - 1
      invariant significantBuffer[..i] == buffer[..i]
    {
      significantBuffer[i] := buffer[i];
      i := i + 1;
    }
    significantBuffer[MAX_SIGNIFICANT_DECIMAL_DIGITS - 1] := '1';
    significantExponent := exponent + (|buffer| - MAX_SIGNIFICANT_DECIMAL_DIGITS);
    assert significantBuffer[..] == buffer[..i] + ['1'];
    CutValue(buffer, exponent, i);
  }

  lemma CutValue(buffer: seq<char>, exponent: int, n: nat)
    requires AllDigits(buffer) && n == 779 && |buffer| > n + 1 && buffer[|buffer| - 1] != '0' && buffer[0] != '0'
    ensures SameSides(DecimalValue(buffer), exponent, DecimalValue(buffer[..n] + ['1']), exponent + (|buffer| - n) - 1)
  {
    hide Pow, SameSides, DecimalValue;
    var head, tail := buffer[..n], buffer[n..];
    assert buffer == head + tail;
    DecimalConcat(head, tail);
    DecimalAppend(head, '1');
    LeadingNonZero(head);
    DecimalBound(tail);
    LastNonZero(tail);
    PowMonotone(10, 771, n - 1);
    CutKeepsSides(DecimalValue(head), DecimalValue(tail), |tail|, exponent);
  }

  lemma LastNonZero(s: seq<char>)
    requires AllDigits(s) && |s| > 0 && s[|s| - 1] != '0'
    ensures DecimalValue(s) > 0
  {
  }

  /** Trims and cuts; the decimal that is left rounds like the one that was given. */
  method TrimAndCut(buffer: seq<char>, exponent: int) returns (trimmed: seq<char>, updatedExponent: int)
    requires AllDigits(buffer)
    ensures AllDigits(trimmed) && |trimmed| <= MAX_SIGNIFICANT_DECIMAL_DIGITS
    ensures trimmed == [] || trimmed[0] != '0'
    ensures SameSides(DecimalValue(buffer), exponent, DecimalValue(trimmed), updatedExponent)
  {
    hide Pow, SameSides, DecimalValue;
    var leftTrimmed := TrimLeadingZeros(buffer);
    var rightTrimmed := TrimTrailingZeros(leftTrimmed);
    var newExponent := exponent + (|leftTrimmed| - |rightTrimmed|);
    TrimKeepsSides(DecimalValue(rightTrimmed), |leftTrimmed| - |rightTrimmed|, exponent);
    if |rightTrimmed| > MAX_SIGNIFICANT_DECIMAL_DIGITS {
      var space := new char[MAX_SIGNIFICANT_DECIMAL_DIGITS](_ => '0');
      updatedExponent := CutToMaxSignificantDigits(rightTrimmed, newExponent, space);
      trimmed := space[..];
      SidesChain(DecimalValue(buffer), exponent, DecimalValue(rightTrimmed), newExponent, DecimalValue(trimmed), updatedExponent);
    } else {
      trimmed, updatedExponent := rightTrimmed, newExponent;
    }
  }

  lemma SidesChain(m: nat, p: int, m': nat, p': int, m'': nat, p'': int)
    requires SameSides(m, p, m', p') && SameSides(m', p', m'', p'')
    ensures SameSides(m, p, m'', p'')
  {
  }

  /** Both sides of the comparison, in integers. */
  ghost function DecimalSide(m: nat, exponent: int, e: int): nat {
    (m * Ten(exponent)) * Pow(2, Max(-e, 0))
  }

  ghost function BinarySide(f: nat, exponent: int, e: int): nat {
    (f * Ten(-exponent)) * Pow(2, Max(e, 0))
  }

  /** buffer * 10^exponent, with a negative binary exponent moved over to it. */
  method AssignDecimalSide(b: Bignum, buffer: seq<char>, exponent: int, e: int)
    requires b.Normal() && AllDigits(buffer) && |buffer| <= MAX_SIGNIFICANT_DECIMAL_DIGITS
    requires exponent + |buffer| <= MAX_DECIMAL_POWER + 1
    modifies b, b.bigits
    ensures b.Normal() && b.Value() == DecimalSide(DecimalValue(buffer), exponent, e)
  {
    hide Bignum.Value, Bignum.IsClamped, Bignum.Valid, Weight, Pow, DecimalValue;
    One();
    Scaling.NormalParts(b);
    b.Size();
    BufferFits(|buffer|, b.bigits.Length - 4);
    b.AssignDecimalString(buffer);
    if exponent >= 0 {
      PowerFits(b, buffer, exponent, b.bigits.Length);
      b.MultiplyByPowerOfTen(exponent);
      DecimalBound(buffer);
      ScaledBound(DecimalValue(buffer), |buffer|, exponent);
    } else {
      DecimalBound(buffer);
      LongBound(DecimalValue(buffer), |buffer|);
    }
    b.LengthFromValue(120);
    if e <= 0 {
      Scaling.NormalParts(b);
      b.ShiftLeft(-e);
      Scaling.PartsNormal(b);
    }
  }

  lemma BufferFits(length: nat, limit: nat)
    requires length <= MAX_SIGNIFICANT_DECIMAL_DIGITS && limit >= 120
    ensures Pow(10, length) < Weight(limit)
  {
    hide Pow, Weight;
    One();
    assert Pow(10, length) * Pow(2, 0) == Pow(10, length);
    Scaling.TenBelowWeight(length, 0, limit);
  }

  lemma LongBound(m: nat, length: nat)
    requires m < Pow(10, length) && length <= MAX_SIGNIFICANT_DECIMAL_DIGITS
    ensures m < Weight(120)
  {
    hide Pow, Weight;
    BufferFits(length, 120);
  }

  lemma ScaledBound(m: nat, length: nat, exponent: nat)
    requires m < Pow(10, length) && exponent + length <= MAX_DECIMAL_POWER + 1
    ensures m * Pow(10, exponent) < Weight(120) && m * Pow(10, exponent) < Pow(10, length + exponent)
  {
    hide Pow, Weight;
    MulStrict(m, Pow(10, length), Pow(10, exponent));
    PowAdd(10, length, exponent);
    BufferFits(length + exponent, 120);
  }

  lemma PowerFits(b: Bignum, buffer: seq<char>, exponent: nat, limit: nat)
    requires b.Normal() && AllDigits(buffer) && b.Value() == DecimalValue(buffer) && limit == b.bigits.Length
    requires exponent + |buffer| <= MAX_DECIMAL_POWER + 1
    ensures b.Mantissa() * Pow(5, exponent) < Weight(limit - 1)
  {
    hide Bignum.Value, Pow, Weight, Bignum.Mantissa, DecimalValue;
    DecimalBound(buffer);
    b.MantissaBelowValue();
    ScaledBound(DecimalValue(buffer), |buffer|, exponent);
    PowBaseMonotone(5, 10, exponent);
    MulMonotone(b.Mantissa(), DecimalValue(buffer), Pow(5, exponent));
    MulMonotone(Pow(5, exponent), Pow(10, exponent), DecimalValue(buffer));
    WeightMonotone(120, limit - 1);
  }

  /** diy_fp, with a negative decimal exponent moved over to it. */
  method AssignBinarySide(b: Bignum, f: nat, exponent: int, e: int)
    requires b.Normal() && 0 < f < DOUBLE_CHUNK && exponent >= -1104
    modifies b, b.bigits
    ensures b.Normal() && b.Value() == BinarySide(f, exponent, e)
  {
    hide Bignum.Value, Bignum.IsClamped, Bignum.Valid, Weight, Pow;
    One();
    Scaling.NormalParts(b);
    b.Size();
    b.AssignUInt64(f);
    if exponent < 0 {
      b.MantissaBelowValue();
      FivesFit(b.Mantissa(), f, -exponent, b.bigits.Length);
      b.MultiplyByPowerOfTen(-exponent);
      b.LengthFromMantissa(100);
    }
    if e > 0 {
      Scaling.NormalParts(b);
      b.ShiftLeft(e);
      Scaling.PartsNormal(b);
    }
  }

  lemma FivesFit(mantissa: nat, f: nat, power: nat, limit: nat)
    requires mantissa <= f < DOUBLE_CHUNK && power <= 1104 && limit >= 128
    ensures mantissa * Pow(5, power) < Weight(limit - 1)
    ensures mantissa * Pow(5, power) * Pow(2, power % 28) < Weight(100)
  {
    hide Pow, Weight;
    var top := FiveBits(mantissa, f, power);
    var m, s := mantissa * Pow(5, power), power % 28;
    WeightIsPowerOfTwo(100);
    MulMonotone(m, Pow(2, top), Pow(2, s));
    PowAdd(2, top, s);
    PowStrict(2, top + s, 28 * 100);
    PowMonotone(2, 0, s);
    One();
    MulMonotone(1, Pow(2, s), m);
    WeightMonotone(100, limit - 1);
  }

  lemma FiveBits(mantissa: nat, f: nat, power: nat) returns (top: nat)
    requires mantissa <= f < DOUBLE_CHUNK && power <= 1104
    ensures top == 2640 && mantissa * Pow(5, power) <= Pow(2, top)
  {
    hide Pow;
    var n := 368;
    FiveBelowEight(n);
    PowMonotone(5, power, 3 * n);
    TwoTo64();
    MulMonotone(mantissa, Pow(2, 64), Pow(5, power));
    MulMonotone(Pow(5, power), Pow(2, 7 * n), Pow(2, 64));
    PowAdd(2, 64, 7 * n);
    top := 64 + 7 * n;
  }

  /** The exact sign of buffer * 10^exponent - f * 2^e. */
  method CompareBufferWithDiyFp(buffer: seq<char>, exponent: int, f: nat, e: int) returns (comparison: int)
    requires AllDigits(buffer) && |buffer| <= MAX_SIGNIFICANT_DECIMAL_DIGITS
    requires MIN_DECIMAL_POWER < exponent + |buffer| <= MAX_DECIMAL_POWER + 1
    requires 0 < f < DOUBLE_CHUNK && e >= -1075
    ensures comparison == Sign(Compare(DecimalValue(buffer), exponent, f * Pow(2, e + 1075)))
  {
    hide Bignum.Value, Bignum.IsClamped, Bignum.Valid, Pow, Compare, DecimalValue, DecimalSide, BinarySide;
    var bufferBignum := new Bignum();
    var diyFpBignum := new Bignum();
    AssignDecimalSide(bufferBignum, buffer, exponent, e);
    AssignBinarySide(diyFpBignum, f, exponent, e);
    SidesAreCompare(DecimalValue(buffer), exponent, f, e);
    comparison := Bignum.Compare(bufferBignum, diyFpBignum);
  }

  lemma SidesAreCompare(m: nat, exponent: int, f: nat, e: int)
    requires e >= -1075
    ensures Sign(Compare(m, exponent, f * Pow(2, e + 1075)))
         == Sign(DecimalSide(m, exponent, e) - BinarySide(f, exponent, e))
  {
    hide Pow, Ten;
    var n := 1075;
    var x, y := m * Ten(exponent), f * Ten(-exponent);
    var k := f * Pow(2, e + n);
    One();
    Rearrange(f, Pow(2, e + n), Ten(-exponent));
    if e <= 0 {
      PowAdd(2, -e, e + n);
      SharedFactor(x, Pow(2, -e), y, 1, Pow(2, e + n));
    } else {
      PowAdd(2, e, n);
      SharedFactor(x, 1, y, Pow(2, e), Pow(2, n));
    }
  }

  lemma Rearrange(f: int, p: int, t: int)
    ensures (f * p) * t == (f * t) * p
  {
  }

  lemma SharedFactor(x: int, a: int, y: int, b: int, c: int)
    requires c > 0
    ensures Sign(x * (a * c) - y * (b * c)) == Sign(x * a - y * b)
  {
    assert x * (a * c) - y * (b * c) == (x * a - y * b) * c;
    SignOfProduct(x * (a * c) - y * (b * c), 1, x * a - y * b, c);
  }

  lemma ZeroRounds(exponent: int)
    ensures RoundsTo(0, 0, exponent)
  {
    hide Ten;
    Deciding.SmallBoundaries();
  }

  /** From 10^309 on every number is read as infinity. */
  lemma HugeRounds(m: nat, length: nat, exponent: int)
    requires length > 0 && m >= Pow(10, length - 1) && exponent + length - 1 >= MAX_DECIMAL_POWER
    ensures RoundsTo(INFINITY, m, exponent)
  {
    hide Pow, Boundary;
    var d := INFINITY - 1;
    var c, x := BoundaryForm(d);
    UpperBoundary(d);
    TopBoundary();
    var power, n := 309, 1075;
    SmallestDenormal.LargestPower();
    One();
    PowAdd(2, 1024, n);
    var a, b := Ten(exponent), Ten(-exponent);
    if exponent >= 0 {
      PowAdd(10, length - 1, exponent);
      PowMonotone(10, power, length - 1 + exponent);
      MulMonotone(Pow(10, length - 1), m, a);
    } else {
      PowMonotone(10, power + -exponent, length - 1);
      PowAdd(10, power, -exponent);
    }
    assert m * a >= Pow(10, power) * b;
    MulMonotone(Pow(2, 1024), Pow(10, power), b);
    MulMonotone(Pow(2, 1024) * b, m * a, Pow(2, n));
    Rearrange(Pow(2, 1024), b, Pow(2, n));
    MulStrict(Boundary(d), Pow(2, 1024) * Pow(2, n), b);
  }

  lemma TopBoundary()
    ensures Boundary(INFINITY - 1) < Pow(2, 1024 + 1075)
  {
    hide Pow;
    var d := INFINITY - 1;
    UpperBoundary(d);
    var h := 2 * HIDDEN_BIT - 1;
    assert Significand(d) == h && Exponent(d) == 971;
    Pow54();
    var n := 970 + 1075;
    PowAdd(2, 54, n);
    MulStrict(2 * h + 1, Pow(2, 54), Pow(2, n));
  }

  /** Up to 10^-324 every number is read as zero. */
  lemma TinyRounds(m: nat, length: nat, exponent: int)
    requires m < Pow(10, length) && exponent + length <= MIN_DECIMAL_POWER
    ensures RoundsTo(0, m, exponent)
  {
    hide Pow;
    var n, power := 1075, 324;
    SmallestDenormal.Powers();
    One();
    Deciding.SmallBoundaries();
    PowMonotone(10, length + power, -exponent);
    PowAdd(10, length, power);
    MulStrict(m, Pow(10, length), Pow(2, n));
    MulMonotone(Pow(2, n), Pow(10, power), Pow(10, length));
  }

  /** Returns true if the guess is correct; otherwise it is correct or the next lower double. */
  method ComputeGuess(trimmed: seq<char>, exponent: int, powers: int -> CachedPower)
      returns (correct: bool, guess: Double)
    requires AllDigits(trimmed) && (trimmed == [] || trimmed[0] != '0') && Table(powers)
    ensures correct ==> RoundsTo(guess, DecimalValue(trimmed), exponent)
    ensures !correct ==>
              && MIN_DECIMAL_POWER < exponent + |trimmed| <= MAX_DECIMAL_POWER && guess < INFINITY
              && (RoundsTo(guess, DecimalValue(trimmed), exponent) || RoundsTo(guess + 1, DecimalValue(trimmed), exponent))
  {
    hide Pow, RoundsTo, DecimalValue, Table;
    if |trimmed| == 0 {
      NoDigits();
      ZeroRounds(exponent);
      return true, 0;
    }
    LeadingNonZero(trimmed);
    if exponent + |trimmed| - 1 >= MAX_DECIMAL_POWER {
      HugeRounds(DecimalValue(trimmed), |trimmed|, exponent);
      return true, INFINITY;
    }
    if exponent + |trimmed| <= MIN_DECIMAL_POWER {
      TinyRounds(DecimalValue(trimmed), |trimmed|, exponent);
      return true, 0;
    }
    correct, guess := DiyFpStrtod(trimmed, exponent, powers);
    if guess == INFINITY {
      correct := true;
    }
  }

  /** The double nearest to the decimal, ties to even, whatever its length. */
  method Strtod(buffer: seq<char>, exponent0: int, powers: int -> CachedPower) returns (result: Double)
    requires AllDigits(buffer) && Table(powers)
    ensures RoundsTo(result, DecimalValue(buffer), exponent0)
  {
    hide Pow, Compare, DecimalValue, Table, SameSides, RoundsTo;
    var trimmed, exponent := TrimAndCut(buffer, exponent0);
    ghost var m := DecimalValue(trimmed);
    var isCorrect, guess := ComputeGuess(trimmed, exponent, powers);
    if isCorrect {
      SameRounding(DecimalValue(buffer), exponent0, m, exponent, guess);
      return guess;
    }
    UpperBoundary(guess);
    var comparison := CompareBufferWithDiyFp(trimmed, exponent, 2 * Significand(guess) + 1, Exponent(guess) - 1);
    if comparison < 0 {
      result := guess;
    } else if comparison > 0 {
      result := NextDouble(guess);
    } else if Significand(guess) % 2 == 0 {
      result := guess;
    } else {
      result := NextDouble(guess);
    }
    ChooseSide(m, exponent, guess, result);
    SameRounding(DecimalValue(buffer), exponent0, m, exponent, result);
  }

  /** Of a double and its successor, the side of the boundary between them, and parity on it, picks the right one. */
  lemma ChooseSide(m: nat, p: int, guess: Double, result: Double)
    requires guess < INFINITY && (RoundsTo(guess, m, p) || RoundsTo(guess + 1, m, p))
    requires var c := Compare(m, p, Boundary(guess));
             result == if c < 0 || (c == 0 && Significand(guess) % 2 == 0) then guess else guess + 1
    ensures RoundsTo(result, m, p)
  {
    hide Compare, Boundary;
    assert Significand(guess) % 2 == guess % 2;
  }
}
